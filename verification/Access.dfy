/**
 Role-based access with domains: the string encoding of users and (tenant, organization) domains,
 the policy and grouping tuples, the matcher, and the isolation of domains from each other.
 */
module Access {
  import opened Common
  import Decimal

  const MAX_LEVEL: nat := 10          // the role manager's hierarchy limit
  const ROOT := "root"

  // ---------------------------------------------------------------- strings

  function DigitChar(d: nat): (c: char)
    requires d < 10
    ensures c != '-' && CharDigit(c) == d
  {
    "0123456789"[d]
  }

  function CharDigit(c: char): nat
  {
    match c
    case '1' => 1
    case '2' => 2
    case '3' => 3
    case '4' => 4
    case '5' => 5
    case '6' => 6
    case '7' => 7
    case '8' => 8
    case '9' => 9
    case _ => 0
  }

  function Text(d: seq<nat>): (s: string)
    requires forall i :: 0 <= i < |d| ==> d[i] < 10
    ensures |s| == |d| && '-' !in s && forall i :: 0 <= i < |s| ==> CharDigit(s[i]) == d[i]
  {
    seq(|d|, i requires 0 <= i < |d| => DigitChar(d[i]))
  }

  /** `%v` of a uint64 */
  function Dec(n: nat): (s: string)
    ensures s != [] && '-' !in s
  {
    Text(Decimal.Digits(n))
  }

  function DigitsOf(s: string): (d: seq<nat>)
    ensures |d| == |s| && forall i :: 0 <= i < |s| ==> d[i] == CharDigit(s[i])
  {
    seq(|s|, i requires 0 <= i < |s| => CharDigit(s[i]))
  }

  lemma DecValue(n: nat)
    ensures Decimal.Value(DigitsOf(Dec(n))) == n
  {
    assert DigitsOf(Dec(n)) == Decimal.Digits(n);
    Decimal.ValueOfDigits(n);
  }

  lemma DecInjective(m: nat, n: nat)
    requires Dec(m) == Dec(n)
    ensures m == n
  {
    DecValue(m);
    DecValue(n);
  }

  /** Plain decimal notation, most significant digit first. */
  lemma DecText(n: nat)
    ensures n < 10 ==> Dec(n) == [('0' as int + n) as char]
    ensures n >= 10 ==> Dec(n) == Dec(n / 10) + Dec(n % 10)
  {
    if n >= 10 {
      assert Text(Decimal.Digits(n / 10) + [n % 10]) == Text(Decimal.Digits(n / 10)) + Text([n % 10]);
    }
  }

  function User(uid: nat): string
  {
    "uid-" + Dec(uid)
  }

  function Domain(tenant: nat, org: nat): string
  {
    "tenant-" + (Dec(tenant) + ['-'] + ("org-" + Dec(org)))
  }

  function LegacyDomain(tenant: nat): string
  {
    "tenant-" + Dec(tenant)
  }

  /** The strings the service writes for a user, an organization and a tenant. */
  lemma Names()
    ensures User(123) == "uid-123"
    ensures Domain(12, 3) == "tenant-12-org-3"
    ensures LegacyDomain(12) == "tenant-12"
  {
    DecText(1);
    DecText(2);
    DecText(3);
    DecText(12);
    DecText(123);
  }

  /** Up to the first dash. */
  function Head(s: string): (h: string)
    ensures |h| <= |s| && h == s[..|h|] && '-' !in h
  {
    if s == [] || s[0] == '-' then []
    else
      var h := [s[0]] + Head(s[1..]);
      assert h == s[..|h|];
      h
  }

  lemma {:induction false} HeadOf(a: string, rest: string)
    requires '-' !in a && (rest == [] || rest[0] == '-')
    ensures Head(a + rest) == a
    decreases |a|
  {
    if a == [] {
      assert a + rest == rest;
    } else {
      assert (a + rest)[1..] == a[1..] + rest;
      HeadOf(a[1..], rest);
    }
  }

  lemma FirstField(a: string, x: string, b: string, y: string)
    requires '-' !in a && '-' !in b && a + ['-'] + x == b + ['-'] + y
    ensures a == b && x == y
  {
    var s := a + ['-'] + x;
    HeadOf(a, ['-'] + x);
    HeadOf(b, ['-'] + y);
    assert s == a + (['-'] + x) && s == b + (['-'] + y);
    assert x == s[|a| + 1..] && y == s[|b| + 1..];
  }

  lemma SamePrefix(p: string, x: string, y: string)
    requires p + x == p + y
    ensures x == y
  {
    assert x == (p + x)[|p|..] && y == (p + y)[|p|..];
  }

  /** No two (tenant, organization) pairs share a domain string. */
  lemma DomainInjective(t: nat, o: nat, t': nat, o': nat)
    requires Domain(t, o) == Domain(t', o')
    ensures t == t' && o == o'
  {
    SamePrefix("tenant-", Dec(t) + ['-'] + ("org-" + Dec(o)), Dec(t') + ['-'] + ("org-" + Dec(o')));
    FirstField(Dec(t), "org-" + Dec(o), Dec(t'), "org-" + Dec(o'));
    SamePrefix("org-", Dec(o), Dec(o'));
    DecInjective(t, t');
    DecInjective(o, o');
  }

  /** An organization's domain is never a tenant's legacy domain. */
  lemma DomainNotLegacy(t: nat, o: nat, t': nat)
    ensures Domain(t, o) != LegacyDomain(t')
  {
    var x := Dec(t) + ['-'] + ("org-" + Dec(o));
    assert x[|Dec(t)|] == '-';
    if Domain(t, o) == LegacyDomain(t') {
      SamePrefix("tenant-", x, Dec(t'));
    }
  }

  lemma UserInjective(u: nat, v: nat)
    requires User(u) == User(v)
    ensures u == v
  {
    SamePrefix("uid-", Dec(u), Dec(v));
    DecInjective(u, v);
  }

  /** `strings.Split(user, "-")[1]` read with `strconv.Atoi`, whose range error yields the largest int64. */
  function UidOf(user: string): nat
    requires |Head(user)| < |user|
  {
    var field := Head(user[|Head(user)| + 1..]);
    var n := Decimal.Value(DigitsOf(field));
    if n < TWO63 then n else TWO63 - 1
  }

  /** User strings give the uid back exactly below 2^63. */
  lemma UidRoundTripIff(u: nat)
    ensures Head(User(u)) == "uid" && (UidOf(User(u)) == u <==> u < TWO63)
  {
    var s := User(u);
    assert s == "uid" + (['-'] + Dec(u));
    HeadOf("uid", ['-'] + Dec(u));
    assert s[4..] == Dec(u);
    HeadOf(Dec(u), []);
    assert Dec(u) + [] == Dec(u);
    DecValue(u);
  }

  /** GetUsersForRoleInDomain: the uids behind a list of user strings. */
  method UidsOf(users: seq<string>) returns (ids: seq<nat>)
    requires forall i :: 0 <= i < |users| ==> |Head(users[i])| < |users[i]|
    ensures |ids| == |users|
    ensures forall i, u: nat :: 0 <= i < |users| && users[i] == User(u) && u < TWO63 ==> ids[i] == u
  {
    ids := [];
    for i := 0 to |users|
      invariant |ids| == i && forall j :: 0 <= j < i ==> ids[j] == UidOf(users[j])
    {
      ids := ids + [UidOf(users[i])];
    }
    forall i, u: nat | 0 <= i < |users| && users[i] == User(u) && u < TWO63
      ensures ids[i] == u
    {
      UidRoundTripIff(u);
    }
  }

  // ---------------------------------------------------------------- tuples and the matcher

  datatype Policy = Policy(sub: string, dom: string, obj: string, act: string)
  datatype Grouping = Grouping(user: string, role: string, dom: string)
  datatype Rules = Rules(p: set<Policy>, g: set<Grouping>)

  /** `g(a, b, dom)`: a chain of groupings inside one domain, up to the hierarchy limit. */
  predicate HasLink(g: set<Grouping>, dom: string, a: string, b: string, level: nat)
    decreases level
  {
    a == b || (level > 0 && exists x :: x in g && x.dom == dom && x.user == a && HasLink(g, dom, x.role, b, level - 1))
  }

  /** The matcher: a policy reached through the domain's roles, or the root role itself. */
  predicate Enforced(r: Rules, sub: string, dom: string, obj: string, act: string)
  {
    || (exists p :: p in r.p && p.dom == dom && p.obj == obj && p.act == act &&
          HasLink(r.g, dom, sub, p.sub, MAX_LEVEL))
    || Grouping(sub, ROOT, dom) in r.g
  }

  /** A chain of roles: each name holds the next one as a role in this domain. */
  ghost predicate Chain(g: set<Grouping>, dom: string, path: seq<string>)
  {
    path != [] && forall i :: 0 <= i < |path| - 1 ==> Grouping(path[i], path[i + 1], dom) in g
  }

  /** A chain from `a` to `b` over at most `level` groupings. */
  ghost predicate Reaches(g: set<Grouping>, dom: string, a: string, b: string, level: nat, path: seq<string>)
  {
    Chain(g, dom, path) && |path| <= level + 1 && path[0] == a && path[|path| - 1] == b
  }

  lemma {:induction false} LinkIsChain(g: set<Grouping>, dom: string, a: string, b: string, level: nat)
    ensures HasLink(g, dom, a, b, level) <==> exists path :: Reaches(g, dom, a, b, level, path)
    decreases level
  {
    if a == b {
      assert Reaches(g, dom, a, b, level, [a]);
    } else if level > 0 {
      if HasLink(g, dom, a, b, level) {
        var x :| x in g && x.dom == dom && x.user == a && HasLink(g, dom, x.role, b, level - 1);
        LinkIsChain(g, dom, x.role, b, level - 1);
        var rest :| Reaches(g, dom, x.role, b, level - 1, rest);
        assert x == Grouping(a, x.role, dom);
        assert Reaches(g, dom, a, b, level, [a] + rest);
      }
      forall path | Reaches(g, dom, a, b, level, path)
        ensures HasLink(g, dom, a, b, level)
      {
        var rest := path[1..];
        assert Grouping(path[0], path[0 + 1], dom) in g;
        assert forall i :: 0 <= i < |rest| - 1 ==>
                 rest[i] == path[i + 1] && Grouping(path[i + 1], path[i + 1 + 1], dom) in g;
        assert Reaches(g, dom, path[1], b, level - 1, rest);
        LinkIsChain(g, dom, path[1], b, level - 1);
      }
    }
  }

  /**
   A request is allowed if and only if its user holds the root role in the domain, or a chain of at most ten roles of
   that domain leads from the user to a name for which that very object and action are granted there.
   */
  lemma DecisionIff(r: Rules, sub: string, dom: string, obj: string, act: string)
    ensures Enforced(r, sub, dom, obj, act) <==>
            || Grouping(sub, "root", dom) in r.g
            || exists path :: && Chain(r.g, dom, path) && |path| <= 11 && path[0] == sub
                              && Policy(path[|path| - 1], dom, obj, act) in r.p
  {
    if exists p :: p in r.p && p.dom == dom && p.obj == obj && p.act == act &&
                   HasLink(r.g, dom, sub, p.sub, MAX_LEVEL) {
      var p :| p in r.p && p.dom == dom && p.obj == obj && p.act == act && HasLink(r.g, dom, sub, p.sub, MAX_LEVEL);
      LinkIsChain(r.g, dom, sub, p.sub, MAX_LEVEL);
      var path :| Reaches(r.g, dom, sub, p.sub, MAX_LEVEL, path);
      assert p == Policy(path[|path| - 1], dom, obj, act);
    }
    forall path | && Chain(r.g, dom, path) && |path| <= 11 && path[0] == sub
                  && Policy(path[|path| - 1], dom, obj, act) in r.p
      ensures Enforced(r, sub, dom, obj, act)
    {
      assert Reaches(r.g, dom, sub, path[|path| - 1], MAX_LEVEL, path);
      LinkIsChain(r.g, dom, sub, path[|path| - 1], MAX_LEVEL);
    }
  }

  /** The same tuples inside one domain. */
  ghost predicate AgreeOn(r: Rules, s: Rules, dom: string)
  {
    && (forall p: Policy :: p.dom == dom ==> (p in r.p <==> p in s.p))
    && (forall x: Grouping :: x.dom == dom ==> (x in r.g <==> x in s.g))
  }

  lemma {:induction false} LinkIsLocal(r: Rules, s: Rules, dom: string, a: string, b: string, level: nat)
    requires AgreeOn(r, s, dom)
    ensures HasLink(r.g, dom, a, b, level) <==> HasLink(s.g, dom, a, b, level)
    decreases level
  {
    if a == b || level == 0 {
    } else {
      forall x: Grouping | x.dom == dom && x.user == a
        ensures HasLink(r.g, dom, x.role, b, level - 1) <==> HasLink(s.g, dom, x.role, b, level - 1)
      {
        LinkIsLocal(r, s, dom, x.role, b, level - 1);
      }
    }
  }

  /** A decision depends on its own domain's tuples only. */
  lemma DecisionIsLocal(r: Rules, s: Rules, sub: string, dom: string, obj: string, act: string)
    requires AgreeOn(r, s, dom)
    ensures Enforced(r, sub, dom, obj, act) <==> Enforced(s, sub, dom, obj, act)
  {
    forall p: Policy | p.dom == dom
      ensures HasLink(r.g, dom, sub, p.sub, MAX_LEVEL) <==> HasLink(s.g, dom, sub, p.sub, MAX_LEVEL)
    {
      LinkIsLocal(r, s, dom, sub, p.sub, MAX_LEVEL);
    }
  }

  // ---------------------------------------------------------------- operations

  datatype Op =
    | AddRole(uid: nat, role: string) | DeleteRole(uid: nat, role: string) | DeleteRoles(uid: nat)
    | AddPolicy(sub: string, obj: string, act: string) | RemovePolicy(sub: string, obj: string, act: string)
    | CopyPolicies(source: string) | CopyGrouping(source: string) | RemoveDomain

  predicate Complete(p: Policy)
  {
    p.sub != "" && p.obj != "" && p.act != ""
  }

  function CopiedPolicies(p: set<Policy>, source: string, target: string): set<Policy>
  {
    if source == "" || target == "" || source == target then {}
    else set x | x in p && x.dom == source && Complete(x) :: Policy(x.sub, target, x.obj, x.act)
  }

  function CopiedGroupings(g: set<Grouping>, source: string, target: string): set<Grouping>
  {
    if source == "" || target == "" || source == target then {}
    else set x | x in g && x.dom == source && x.user != "" && x.role != "" :: Grouping(x.user, x.role, target)
  }

  /** One call for (tenant, org); organization 0 is refused. */
  function Apply(r: Rules, tenant: nat, org: nat, op: Op): Rules
  {
    var dom := Domain(tenant, org);
    if org == 0 then r
    else
      match op
      case AddRole(u, role) => r.(g := r.g + {Grouping(User(u), role, dom)})
      case DeleteRole(u, role) => r.(g := r.g - {Grouping(User(u), role, dom)})
      case DeleteRoles(u) => r.(g := set x | x in r.g && !(x.user == User(u) && x.dom == dom))
      case AddPolicy(sub, obj, act) => r.(p := r.p + {Policy(sub, dom, obj, act)})
      case RemovePolicy(sub, obj, act) => r.(p := r.p - {Policy(sub, dom, obj, act)})
      case CopyPolicies(source) => r.(p := r.p + CopiedPolicies(r.p, source, dom))
      case CopyGrouping(source) => r.(g := r.g + CopiedGroupings(r.g, source, dom))
      case RemoveDomain => Rules(set x | x in r.p && x.dom != dom, set x | x in r.g && x.dom != dom)
  }

  function Run(r: Rules, tenant: nat, org: nat, ops: seq<Op>): Rules
    decreases |ops|
  {
    if ops == [] then r else Run(Apply(r, tenant, org, ops[0]), tenant, org, ops[1..])
  }

  /** Each call adds or removes exactly its own tuple, or all of the user's roles in this domain. */
  lemma CallTuples(r: Rules, tenant: nat, org: nat, uid: nat, role: string, sub: string, obj: string, act: string)
    requires org != 0
    ensures var dom := Domain(tenant, org);
            var x, p := Grouping(User(uid), role, dom), Policy(sub, dom, obj, act);
            && Apply(r, tenant, org, AddRole(uid, role)) == Rules(r.p, r.g + {x})
            && Apply(r, tenant, org, DeleteRole(uid, role)) == Rules(r.p, r.g - {x})
            && Apply(r, tenant, org, AddPolicy(sub, obj, act)) == Rules(r.p + {p}, r.g)
            && Apply(r, tenant, org, RemovePolicy(sub, obj, act)) == Rules(r.p - {p}, r.g)
    ensures var s := Apply(r, tenant, org, DeleteRoles(uid));
            s.p == r.p && forall x :: x in s.g <==> x in r.g && (x.user != User(uid) || x.dom != Domain(tenant, org))
    ensures forall op :: Apply(r, tenant, 0, op) == r
  {
  }

  /** Undoing an added role or policy that was not there before gives the rules from before. */
  lemma AddThenRemove(r: Rules, tenant: nat, org: nat, uid: nat, role: string, sub: string, obj: string, act: string)
    ensures Grouping(User(uid), role, Domain(tenant, org)) !in r.g ==>
              Apply(Apply(r, tenant, org, AddRole(uid, role)), tenant, org, DeleteRole(uid, role)) == r
    ensures Policy(sub, Domain(tenant, org), obj, act) !in r.p ==>
              Apply(Apply(r, tenant, org, AddPolicy(sub, obj, act)), tenant, org, RemovePolicy(sub, obj, act)) == r
  {
  }

  /** Once a user's roles are deleted, only what is granted to the user by name is allowed. */
  lemma DeletedRolesGrantNothing(r: Rules, tenant: nat, org: nat, uid: nat, obj: string, act: string)
    requires org != 0
    ensures var dom := Domain(tenant, org);
            Enforced(Apply(r, tenant, org, DeleteRoles(uid)), User(uid), dom, obj, act) <==>
            Policy(User(uid), dom, obj, act) in r.p
  {
    var dom, s := Domain(tenant, org), Apply(r, tenant, org, DeleteRoles(uid));
    assert forall x :: x in s.g && x.dom == dom ==> x.user != User(uid);
    forall p | p in s.p && p.dom == dom && p.obj == obj && p.act == act
      ensures HasLink(s.g, dom, User(uid), p.sub, MAX_LEVEL) ==> p == Policy(User(uid), dom, obj, act)
    {
    }
    assert Policy(User(uid), dom, obj, act) in r.p ==> HasLink(s.g, dom, User(uid), User(uid), MAX_LEVEL);
  }

  /** In a removed domain nothing is allowed. */
  lemma RemovedDomainGrantsNothing(r: Rules, tenant: nat, org: nat, sub: string, obj: string, act: string)
    requires org != 0
    ensures !Enforced(Apply(r, tenant, org, RemoveDomain), sub, Domain(tenant, org), obj, act)
  {
  }

  /** All tuples of the domain have their fields, so that copying skips none. */
  ghost predicate AllComplete(r: Rules, dom: string)
  {
    && (forall p :: p in r.p && p.dom == dom ==> Complete(p))
    && (forall x :: x in r.g && x.dom == dom ==> x.user != "" && x.role != "")
  }

  /** The tuples of domain `a` in `r` and of domain `b` in `s` correspond. */
  ghost predicate Mirrors(r: Rules, a: string, s: Rules, b: string)
  {
    && (forall sub: string, obj: string, act: string ::
          Policy(sub, a, obj, act) in r.p <==> Policy(sub, b, obj, act) in s.p)
    && (forall u: string, role: string :: Grouping(u, role, a) in r.g <==> Grouping(u, role, b) in s.g)
  }

  lemma {:induction false} MirroredLink(r: Rules, a: string, s: Rules, b: string, u: string, v: string, level: nat)
    requires Mirrors(r, a, s, b) && HasLink(r.g, a, u, v, level)
    ensures HasLink(s.g, b, u, v, level)
    decreases level
  {
    if u != v {
      var x :| x in r.g && x.dom == a && x.user == u && HasLink(r.g, a, x.role, v, level - 1);
      assert x == Grouping(u, x.role, a);
      MirroredLink(r, a, s, b, x.role, v, level - 1);
      assert Grouping(u, x.role, b) in s.g;
    }
  }

  lemma MirroredDecision(r: Rules, a: string, s: Rules, b: string, sub: string, obj: string, act: string)
    requires Mirrors(r, a, s, b) && Enforced(r, sub, a, obj, act)
    ensures Enforced(s, sub, b, obj, act)
  {
    if Grouping(sub, ROOT, a) !in r.g {
      var p :| p in r.p && p.dom == a && p.obj == obj && p.act == act && HasLink(r.g, a, sub, p.sub, MAX_LEVEL);
      assert p == Policy(p.sub, a, obj, act);
      MirroredLink(r, a, s, b, sub, p.sub, MAX_LEVEL);
      assert Policy(p.sub, b, obj, act) in s.p;
    }
  }

  /** Policies and roles copied into an empty domain give every user the very decisions of the source domain. */
  lemma CopiedDomainDecides(r: Rules, source: string, tenant: nat, org: nat, sub: string, obj: string, act: string)
    requires org != 0 && source != "" && source != Domain(tenant, org) && AllComplete(r, source)
    requires (forall p :: p in r.p ==> p.dom != Domain(tenant, org))
    requires (forall x :: x in r.g ==> x.dom != Domain(tenant, org))
    ensures var s := Apply(Apply(r, tenant, org, CopyPolicies(source)), tenant, org, CopyGrouping(source));
            && (Enforced(s, sub, Domain(tenant, org), obj, act) <==> Enforced(r, sub, source, obj, act))
            && forall dom: string :: dom != Domain(tenant, org) ==> AgreeOn(r, s, dom)
  {
    var target := Domain(tenant, org);
    var s := Apply(Apply(r, tenant, org, CopyPolicies(source)), tenant, org, CopyGrouping(source));
    CopiesMirror(r, source, tenant, org);
    if Enforced(r, sub, source, obj, act) {
      MirroredDecision(r, source, s, target, sub, obj, act);
    }
    if Enforced(s, sub, target, obj, act) {
      MirroredDecision(s, target, r, source, sub, obj, act);
    }
  }

  lemma CopiesMirror(r: Rules, source: string, tenant: nat, org: nat)
    requires org != 0 && source != "" && source != Domain(tenant, org) && AllComplete(r, source)
    requires (forall p :: p in r.p ==> p.dom != Domain(tenant, org))
    requires (forall x :: x in r.g ==> x.dom != Domain(tenant, org))
    ensures var s := Apply(Apply(r, tenant, org, CopyPolicies(source)), tenant, org, CopyGrouping(source));
            Mirrors(r, source, s, Domain(tenant, org)) && Mirrors(s, Domain(tenant, org), r, source)
  {
    var target := Domain(tenant, org);
    var s := Apply(Apply(r, tenant, org, CopyPolicies(source)), tenant, org, CopyGrouping(source));
    forall sub: string, obj: string, act: string
      ensures Policy(sub, source, obj, act) in r.p <==> Policy(sub, target, obj, act) in s.p
    {
      var p := Policy(sub, source, obj, act);
      assert p in r.p ==> Policy(p.sub, target, p.obj, p.act) in CopiedPolicies(r.p, source, target);
    }
    forall u: string, role: string
      ensures Grouping(u, role, source) in r.g <==> Grouping(u, role, target) in s.g
    {
      var x := Grouping(u, role, source);
      assert x in r.g ==> Grouping(x.user, x.role, target) in CopiedGroupings(r.g, source, target);
    }
  }

  lemma ApplyIsLocal(r: Rules, tenant: nat, org: nat, op: Op, dom: string)
    requires dom != Domain(tenant, org)
    ensures AgreeOn(r, Apply(r, tenant, org, op), dom)
  {
  }

  lemma {:induction false} RunIsLocal(r: Rules, tenant: nat, org: nat, ops: seq<Op>, dom: string)
    requires dom != Domain(tenant, org)
    ensures AgreeOn(r, Run(r, tenant, org, ops), dom)
    decreases |ops|
  {
    if ops == [] {
    } else {
      ApplyIsLocal(r, tenant, org, ops[0], dom);
      RunIsLocal(Apply(r, tenant, org, ops[0]), tenant, org, ops[1..], dom);
    }
  }

  /** No sequence of calls for one (tenant, org) changes a decision in another, nor any legacy domain. */
  lemma DomainsAreIsolated(r: Rules, tenant: nat, org: nat, ops: seq<Op>, tenant': nat, org': nat, sub: string,
                           obj: string, act: string)
    requires (tenant, org) != (tenant', org')
    ensures Enforced(r, sub, Domain(tenant', org'), obj, act) <==>
            Enforced(Run(r, tenant, org, ops), sub, Domain(tenant', org'), obj, act)
    ensures AgreeOn(r, Run(r, tenant, org, ops), LegacyDomain(tenant'))
  {
    if Domain(tenant, org) == Domain(tenant', org') {
      DomainInjective(tenant, org, tenant', org');
    }
    RunIsLocal(r, tenant, org, ops, Domain(tenant', org'));
    DecisionIsLocal(r, Run(r, tenant, org, ops), sub, Domain(tenant', org'), obj, act);
    DomainNotLegacy(tenant, org, tenant');
    RunIsLocal(r, tenant, org, ops, LegacyDomain(tenant'));
  }
}
