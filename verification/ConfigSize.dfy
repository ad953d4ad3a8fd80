/**
 The size limit of the configuration update. Go visits the keys of the update in any order and refuses to store
 into a map of more than 100 keys, so whether an update goes through can depend on the order: this module says
 exactly when every order succeeds and when some order does.
 */
module ConfigSize {
  import opened Common
  import opened TenantConfig

  type More = map<string, string>
  type Data = map<string, Option<string>>

  const LIMIT: nat := 100

  /** One round of the loop: None is the refusal. */
  function SetKey(more: More, k: string, v: Option<string>): Option<More>
  {
    match v
    case None => Some(more - {k})
    case Some(x) => if |more| > LIMIT then None else Some(more[k := x])
  }

  function MergeInOrder(more: More, data: Data, order: seq<string>): Option<More>
    requires forall k :: k in order ==> k in data
    decreases |order|
  {
    if order == [] then Some(more)
    else
      match MergeInOrder(more, data, order[..|order| - 1])
      case None => None
      case Some(m) => SetKey(m, order[|order| - 1], data[order[|order| - 1]])
  }

  /** An order in which the update's keys can be visited. */
  ghost predicate Visits(data: Data, order: seq<string>)
  {
    NoDuplicates(order) && forall k :: k in order <==> k in data
  }

  // ---------------------------------------------------------------- what an update does to the keys

  function Added(more: More, data: Data): (s: set<string>)
    ensures forall k :: k in s <==> k in data && data[k].Some? && k !in more
  {
    set k | k in data && data[k].Some? && k !in more
  }

  function Changed(more: More, data: Data): (s: set<string>)
    ensures forall k :: k in s <==> k in data && data[k].Some? && k in more
  {
    set k | k in data && data[k].Some? && k in more
  }

  function Dropped(more: More, data: Data): (s: set<string>)
    ensures forall k :: k in s <==> k in data && data[k].None? && k in more
  {
    set k | k in data && data[k].None? && k in more
  }

  function Keys(order: seq<string>): (s: set<string>)
    ensures forall k :: k in s <==> k in order
  {
    set k | k in order
  }

  /** Even with the new keys stored first and nothing deleted yet, no store finds the map over the limit. */
  ghost predicate AllFit(more: More, data: Data)
  {
    if Changed(more, data) != {} then |more| + |Added(more, data)| <= LIMIT
    else Added(more, data) == {} || |more| + |Added(more, data)| <= LIMIT + 1
  }

  /** With the deletions first and the new keys last, no store finds the map over the limit. */
  ghost predicate SomeFit(more: More, data: Data)
  {
    if Added(more, data) != {} then |more| - |Dropped(more, data)| + |Added(more, data)| <= LIMIT + 1
    else Changed(more, data) == {} || |more| - |Dropped(more, data)| <= LIMIT
  }

  // ---------------------------------------------------------------- sizes along an order

  lemma KeysInit(order: seq<string>)
    requires order != [] && NoDuplicates(order)
    ensures var init, k := order[..|order| - 1], order[|order| - 1];
            NoDuplicates(init) && k !in init && Keys(order) == Keys(init) + {k} && forall x :: x in init ==> x in order
  {
    var init, k := order[..|order| - 1], order[|order| - 1];
    assert order == init + [k];
  }

  lemma CountOne(s: set<string>, t: set<string>, k: string)
    requires k !in t
    ensures |s * (t + {k})| == |s * t| + if k in s then 1 else 0
  {
    if k in s {
      assert s * (t + {k}) == s * t + {k};
    } else {
      assert s * (t + {k}) == s * t;
    }
  }

  lemma StoreSize(m: More, k: string, x: string)
    ensures |m[k := x]| == |m| + if k in m then 0 else 1
    ensures |m - {k}| == |m| - if k in m then 1 else 0
  {
    assert m[k := x].Keys == m.Keys + {k};
    assert (m - {k}).Keys == m.Keys - {k};
  }

  /** The size after a prefix depends on which keys it had, not on their order. */
  lemma {:induction false} SizeAfter(more: More, data: Data, order: seq<string>)
    requires NoDuplicates(order) && (forall k :: k in order ==> k in data) && MergeInOrder(more, data, order).Some?
    ensures var m := MergeInOrder(more, data, order).value;
            && |m| == |more| - |Dropped(more, data) * Keys(order)| + |Added(more, data) * Keys(order)|
            && forall k :: k !in order ==> (k in m <==> k in more)
    decreases |order|
  {
    if order == [] {
      assert Keys(order) == {};
    } else {
      var init, k := order[..|order| - 1], order[|order| - 1];
      KeysInit(order);
      SizeAfter(more, data, init);
      var m := MergeInOrder(more, data, init).value;
      StoreSize(m, k, if data[k].Some? then data[k].value else "");
      CountOne(Dropped(more, data), Keys(init), k);
      CountOne(Added(more, data), Keys(init), k);
    }
  }

  lemma {:induction false} PrefixSucceeds(more: More, data: Data, order: seq<string>, tail: seq<string>)
    requires (forall k :: k in order + tail ==> k in data) && MergeInOrder(more, data, order + tail).Some?
    ensures (forall k :: k in order ==> k in data) && MergeInOrder(more, data, order).Some?
    decreases |tail|
  {
    assert forall k :: k in order ==> k in order + tail;
    if tail == [] {
      assert order + tail == order;
    } else {
      var init := tail[..|tail| - 1];
      assert (order + tail)[..|order + tail| - 1] == order + init;
      PrefixSucceeds(more, data, order, init);
    }
  }

  /** A store that goes through found the map within the limit. */
  lemma StoreFits(more: More, data: Data, order: seq<string>, k: string, tail: seq<string>)
    requires NoDuplicates(order) && (forall x :: x in order + [k] + tail ==> x in data) && k in data && data[k].Some?
    requires MergeInOrder(more, data, order + [k] + tail).Some?
    ensures |more| - |Dropped(more, data) * Keys(order)| + |Added(more, data) * Keys(order)| <= LIMIT
  {
    PrefixSucceeds(more, data, order + [k], tail);
    PrefixSucceeds(more, data, order, [k]);
    assert (order + [k])[..|order|] == order;
    SizeAfter(more, data, order);
  }

  // ---------------------------------------------------------------- every order

  lemma {:induction false} AllFitSucceeds(more: More, data: Data, order: seq<string>)
    requires AllFit(more, data) && NoDuplicates(order) && forall k :: k in order ==> k in data
    ensures MergeInOrder(more, data, order).Some?
    decreases |order|
  {
    if order == [] {
    } else {
      var init, k := order[..|order| - 1], order[|order| - 1];
      KeysInit(order);
      AllFitSucceeds(more, data, init);
      SizeAfter(more, data, init);
      var added := Added(more, data);
      Smaller(added * Keys(init), if k in added then added - {k} else added);
      assert data[k].Some? ==> k in added || k in Changed(more, data);
    }
  }

  lemma Smaller(a: set<string>, b: set<string>)
    requires a <= b
    ensures |a| <= |b|
  {
    assert b == a + (b - a);
  }

  /** Some listing of a set. */
  ghost function ListOf(s: set<string>): (r: seq<string>)
    ensures NoDuplicates(r) && (forall k :: k in r <==> k in s) && Keys(r) == s
    decreases |s|
  {
    if s == {} then []
    else
      var k :| k in s;
      var rest := ListOf(s - {k});
      assert forall x :: x in s <==> x in s - {k} || x == k;
      rest + [k]
  }

  lemma ThreeParts(data: Data, a: seq<string>, b: seq<string>, c: seq<string>)
    requires NoDuplicates(a) && NoDuplicates(b) && NoDuplicates(c)
    requires Keys(a) !! Keys(b) && Keys(a) !! Keys(c) && Keys(b) !! Keys(c) && Keys(a) + Keys(b) + Keys(c) == data.Keys
    ensures Visits(data, a + b + c)
  {
    var o := a + b + c;
    forall k
      ensures k in o <==> k in data
    {
      assert k in o <==> k in Keys(a) + Keys(b) + Keys(c);
    }
    forall i, j | 0 <= i < j < |o|
      ensures o[i] != o[j]
    {
      assert (if i < |a| then a[i] else if i < |a| + |b| then b[i - |a|] else c[i - |a| - |b|]) == o[i];
      assert i < |a| ==> o[i] in Keys(a);
      assert |a| <= i < |a| + |b| ==> o[i] in Keys(b);
      assert |a| <= j < |a| + |b| ==> o[j] in Keys(b);
      assert |a| + |b| <= j ==> o[j] in Keys(c);
    }
  }

  /** Visiting `first`, then the store of `k`, then the rest. */
  lemma StoreAfter(more: More, data: Data, first: set<string>, k: string) returns (order: seq<string>)
    requires first <= data.Keys && k in data && k !in first && data[k].Some?
    ensures Visits(data, order)
    ensures MergeInOrder(more, data, order).Some? ==>
              |more| - |Dropped(more, data) * first| + |Added(more, data) * first| <= LIMIT
  {
    order := ListOf(first) + [k] + ListOf(data.Keys - first - {k});
    Around(data, first, k);
    if MergeInOrder(more, data, order).Some? {
      StoreFits(more, data, ListOf(first), k, ListOf(data.Keys - first - {k}));
    }
  }

  lemma Around(data: Data, first: set<string>, k: string)
    requires first <= data.Keys && k in data && k !in first
    ensures Visits(data, ListOf(first) + [k] + ListOf(data.Keys - first - {k}))
  {
    var rest := data.Keys - first - {k};
    assert Keys([k]) == {k};
    assert first + {k} + rest == data.Keys;
    ThreeParts(data, ListOf(first), [k], ListOf(rest));
  }

  lemma NotAllFitFails(more: More, data: Data) returns (order: seq<string>)
    requires !AllFit(more, data)
    ensures Visits(data, order) && MergeInOrder(more, data, order).None?
  {
    if Changed(more, data) != {} {
      var k :| k in Changed(more, data);
      order := ChangeLast(more, data, k);
    } else {
      var k :| k in Added(more, data);
      order := AddLast(more, data, k);
    }
  }

  lemma ChangeLast(more: More, data: Data, k: string) returns (order: seq<string>)
    requires k in Changed(more, data)
    ensures Visits(data, order) && (MergeInOrder(more, data, order).Some? ==> |more| + |Added(more, data)| <= LIMIT)
  {
    var added := Added(more, data);
    order := StoreAfter(more, data, added, k);
    assert Dropped(more, data) * added == {} && added * added == added;
  }

  lemma AddLast(more: More, data: Data, k: string) returns (order: seq<string>)
    requires k in Added(more, data)
    ensures Visits(data, order) && (MergeInOrder(more, data, order).Some? ==> |more| + |Added(more, data)| <= LIMIT + 1)
  {
    var added := Added(more, data);
    order := StoreAfter(more, data, added - {k}, k);
    assert Dropped(more, data) * (added - {k}) == {} && added * (added - {k}) == added - {k};
  }

  /** Every order of the keys succeeds if and only if even the worst one fits. */
  lemma EveryOrderIff(more: More, data: Data)
    ensures AllFit(more, data) <==> forall order :: Visits(data, order) ==> MergeInOrder(more, data, order).Some?
  {
    if AllFit(more, data) {
      forall order | Visits(data, order)
        ensures MergeInOrder(more, data, order).Some?
      {
        AllFitSucceeds(more, data, order);
      }
    } else {
      var order := NotAllFitFails(more, data);
    }
  }

  // ---------------------------------------------------------------- some order

  /** Cut an order at the last of some keys it contains. */
  lemma {:induction false} LastOf(order: seq<string>, s: set<string>)
    returns (p: seq<string>, k: string, tail: seq<string>)
    requires exists x :: x in s && x in order
    ensures order == p + [k] + tail && k in s && s !! Keys(tail)
    decreases |order|
  {
    var init, x := order[..|order| - 1], order[|order| - 1];
    assert order == init + [x];
    if x in s {
      p, k, tail := init, x, [];
    } else {
      p, k, tail := LastOf(init, s);
      tail := tail + [x];
    }
  }

  lemma SuccessFits(more: More, data: Data, order: seq<string>)
    requires Visits(data, order) && MergeInOrder(more, data, order).Some?
    ensures SomeFit(more, data)
  {
    if Added(more, data) != {} {
      var x :| x in Added(more, data);
      LastStore(more, data, order, Added(more, data));
    } else if Changed(more, data) != {} {
      var x :| x in Changed(more, data);
      LastStore(more, data, order, Changed(more, data));
    }
  }

  /** The last store of an order that succeeds finds all but at most the deletions that are still to come. */
  lemma LastStore(more: More, data: Data, order: seq<string>, s: set<string>)
    requires Visits(data, order) && MergeInOrder(more, data, order).Some?
    requires s != {} && (s == Added(more, data) || (Added(more, data) == {} && s == Changed(more, data)))
    ensures |more| - |Dropped(more, data)| + |Added(more, data)| <= if s == Added(more, data) then LIMIT + 1 else LIMIT
  {
    var x :| x in s;
    assert x in order;
    var p, k, tail := LastOf(order, s);
    PartOfOrder(order, p, k, tail);
    StoreFits(more, data, p, k, tail);
    AllButTheLast(order, s, p, k, tail);
    Smaller(Dropped(more, data) * Keys(p), Dropped(more, data));
    assert s != Added(more, data) ==> Added(more, data) * Keys(p) == {};
  }

  lemma AllButTheLast(order: seq<string>, s: set<string>, p: seq<string>, k: string, tail: seq<string>)
    requires NoDuplicates(order) && order == p + [k] + tail && k in s && s !! Keys(tail) && s <= Keys(order)
    ensures |s * Keys(p)| == |s| - 1
  {
    PartOfOrder(order, p, k, tail);
    assert s * Keys(p) == s - {k};
  }

  lemma PartOfOrder(order: seq<string>, p: seq<string>, k: string, tail: seq<string>)
    requires NoDuplicates(order) && order == p + [k] + tail
    ensures NoDuplicates(p) && k !in p && Keys(order) == Keys(p) + {k} + Keys(tail)
  {
    assert forall i :: 0 <= i < |p| ==> order[i] == p[i];
    assert order[|p|] == k;
  }

  /** Deletions before all stores, and no new key before a key that is there. */
  ghost predicate Careful(more: More, data: Data, order: seq<string>)
  {
    forall n :: 0 <= n < |order| ==>
      && (order[n] in Added(more, data) + Changed(more, data) ==> Dropped(more, data) <= Keys(order[..n]))
      && (order[n] in Changed(more, data) ==> Added(more, data) !! Keys(order[..n]))
  }

  lemma {:induction false} CarefulSucceeds(more: More, data: Data, order: seq<string>, n: nat)
    requires SomeFit(more, data) && NoDuplicates(order) && (forall k :: k in order ==> k in data)
    requires Careful(more, data, order) && n <= |order|
    ensures MergeInOrder(more, data, order[..n]).Some?
    decreases n
  {
    if n == 0 {
    } else {
      var init, k := order[..n - 1], order[n - 1];
      assert order[..n][..n - 1] == init && order[..n][n - 1] == k;
      CarefulSucceeds(more, data, order, n - 1);
      SizeAfter(more, data, init);
      assert k !in init;
      if data[k].Some? {
        CarefulStore(more, data, Keys(init), k);
      }
    }
  }

  lemma CarefulStore(more: More, data: Data, before: set<string>, k: string)
    requires SomeFit(more, data) && k in data && k !in before && data[k].Some? && Dropped(more, data) <= before
    requires k in Changed(more, data) ==> Added(more, data) !! before
    ensures |more| - |Dropped(more, data) * before| + |Added(more, data) * before| <= LIMIT
  {
    var added, dropped := Added(more, data), Dropped(more, data);
    assert dropped * before == dropped;
    if k in added {
      Smaller(added * before, added - {k});
    } else {
      assert k in Changed(more, data) && added * before == {};
    }
  }

  lemma CarefulOrder(more: More, data: Data) returns (order: seq<string>)
    ensures Visits(data, order) && Careful(more, data, order)
  {
    var added, changed := Added(more, data), Changed(more, data);
    var a, b, c := ListOf(data.Keys - added - changed), ListOf(changed), ListOf(added);
    order := a + b + c;
    ThreeParts(data, a, b, c);
    forall n | 0 <= n < |order|
      ensures order[n] in added + changed ==> Dropped(more, data) <= Keys(order[..n])
      ensures order[n] in changed ==> added !! Keys(order[..n])
    {
      Positions(a, b, c, n);
    }
  }

  /** What comes before a position of a concatenation. */
  lemma Positions(a: seq<string>, b: seq<string>, c: seq<string>, n: nat)
    requires n < |a + b + c|
    ensures var o := a + b + c;
            && (o[n] !in a ==> Keys(a) <= Keys(o[..n]))
            && (o[n] !in a + c ==> Keys(o[..n]) <= Keys(a) + Keys(b))
  {
    var o := a + b + c;
    assert n < |a| ==> o[n] == a[n];
    assert n >= |a| + |b| ==> o[n] == c[n - |a| - |b|] && c[n - |a| - |b|] == (a + c)[n - |b|];
    if n >= |a| {
      forall k | k in Keys(a)
        ensures k in Keys(o[..n])
      {
        var i :| 0 <= i < |a| && a[i] == k;
        assert o[..n][i] == k;
      }
    }
    if n < |a| + |b| {
      forall k | k in Keys(o[..n])
        ensures k in Keys(a) + Keys(b)
      {
        var i :| 0 <= i < n && o[i] == k;
        assert k == if i < |a| then a[i] else b[i - |a|];
      }
    }
  }

  /** Some order of the keys succeeds if and only if the most careful one fits. */
  lemma SomeOrderIff(more: More, data: Data)
    ensures SomeFit(more, data) <==> exists order :: Visits(data, order) && MergeInOrder(more, data, order).Some?
  {
    if SomeFit(more, data) {
      var order := CarefulOrder(more, data);
      CarefulSucceeds(more, data, order, |order|);
      assert order[..|order|] == order;
    } else {
      forall order | Visits(data, order) && MergeInOrder(more, data, order).Some?
        ensures false
      {
        SuccessFits(more, data, order);
      }
    }
  }

  // ---------------------------------------------------------------- the result

  lemma {:induction false} MergedSoFar(more: More, data: Data, order: seq<string>)
    requires NoDuplicates(order) && (forall k :: k in order ==> k in data) && MergeInOrder(more, data, order).Some?
    ensures MergeInOrder(more, data, order).value == Merged(more, Without(data, data.Keys - Keys(order)))
    decreases |order|
  {
    if order == [] {
      MergeAll(more, data);
      assert data.Keys - Keys(order) == data.Keys;
    } else {
      var init, k := order[..|order| - 1], order[|order| - 1];
      KeysInit(order);
      MergedSoFar(more, data, init);
      MergeOne(more, data, data.Keys - Keys(init), k);
      assert data.Keys - Keys(init) - {k} == data.Keys - Keys(order);
    }
  }

  /** Orders that succeed all give the same configuration. */
  lemma OrderIrrelevant(more: More, data: Data, order: seq<string>)
    requires Visits(data, order) && MergeInOrder(more, data, order).Some?
    ensures MergeInOrder(more, data, order) == Some(Merged(more, data))
  {
    MergedSoFar(more, data, order);
    MergeAll(more, data);
    assert data.Keys - Keys(order) == {};
  }
}
