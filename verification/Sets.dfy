/** Minimum and ascending listing of finite sets of ids: `MIN(...)` and `ORDER BY id`. */
module Sets {
  predicate IsMin(s: set<nat>, m: nat)
  {
    m in s && forall x :: x in s ==> m <= x
  }

  /** `SELECT MIN(...)` */
  function Min(s: set<nat>): (m: nat)
    requires s != {}
    ensures m in s && forall x :: x in s ==> m <= x
  {
    MinUnique(s);
    var m :| IsMin(s, m);
    m
  }

  lemma MinUnique(s: set<nat>)
    requires s != {}
    ensures exists m :: IsMin(s, m)
    ensures forall m, n :: IsMin(s, m) && IsMin(s, n) ==> m == n
  {
    var m := MinExists(s);
  }

  lemma {:induction false} MinExists(s: set<nat>) returns (m: nat)
    requires s != {}
    ensures IsMin(s, m)
    decreases |s|
  {
    var x :| x in s;
    m := x;
    if s - {x} != {} {
      var y := MinExists(s - {x});
      m := if x <= y then x else y;
    }
    forall z | z in s
      ensures m <= z
    {
      assert z != x ==> z in s - {x};
    }
  }

  ghost predicate Ascending(s: seq<nat>)
  {
    forall i, j :: 0 <= i < j < |s| ==> s[i] < s[j]
  }

  /** `ORDER BY id` */
  function Sorted(s: set<nat>): (r: seq<nat>)
    ensures forall x :: x in r <==> x in s
    ensures Ascending(r) && |r| == |s|
    decreases |s|
  {
    if s == {} then []
    else
      var m := Min(s);
      var rest := Sorted(s - {m});
      assert forall x :: x in s <==> x == m || x in s - {m};
      [m] + rest
  }

  lemma AscendingAppend(s: seq<nat>, m: nat)
    requires Ascending(s) && forall x :: x in s ==> x < m
    ensures Ascending(s + [m])
  {
    forall i, j | 0 <= i < j < |s + [m]|
      ensures (s + [m])[i] < (s + [m])[j]
    {
      assert s[i] in s;
    }
  }

  lemma AscendingInit(s: seq<nat>)
    requires Ascending(s) && s != []
    ensures var init := s[..|s| - 1]; Ascending(init) && forall x :: x in init <==> x in s && x != s[|s| - 1]
  {
    var init, last := s[..|s| - 1], s[|s| - 1];
    assert s == init + [last];
    assert last !in init;
  }

  lemma SameLast(s: seq<nat>, r: seq<nat>)
    requires Ascending(s) && Ascending(r) && (forall x :: x in s <==> x in r) && s != [] && r != []
    ensures s[|s| - 1] == r[|r| - 1]
  {
    var a, b := s[|s| - 1], r[|r| - 1];
    assert a in s && b in r;
    var i :| 0 <= i < |r| && r[i] == a;
    var j :| 0 <= j < |s| && s[j] == b;
  }

  lemma BothEmpty(s: seq<nat>, r: seq<nat>)
    requires forall x :: x in s <==> x in r
    ensures s == [] <==> r == []
  {
    if s != [] {
      assert s[0] in s;
    }
    if r != [] {
      assert r[0] in r;
    }
  }

  /** Ascending listings of the same ids are equal. */
  lemma {:induction false} AscendingUnique(s: seq<nat>, r: seq<nat>)
    requires Ascending(s) && Ascending(r) && forall x :: x in s <==> x in r
    ensures s == r
    decreases |s|
  {
    BothEmpty(s, r);
    if s == [] {
    } else {
      SameLast(s, r);
      AscendingInit(s);
      AscendingInit(r);
      AscendingUnique(s[..|s| - 1], r[..|r| - 1]);
      assert s == s[..|s| - 1] + [s[|s| - 1]];
      assert r == r[..|r| - 1] + [r[|r| - 1]];
    }
  }

  /** Some number no element exceeds. */
  function MaxBound(s: set<nat>): (b: nat)
    ensures forall x :: x in s ==> x <= b
    decreases |s|
  {
    if s == {} then 0
    else
      var m := Min(s);
      var b := MaxBound(s - {m});
      assert forall x :: x in s ==> x == m || x in s - {m};
      if m <= b then b else m
  }
}
