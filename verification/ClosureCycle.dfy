/**
 DetectCircularReference: the self-join looks only for mutual pairs, yet on a transitively
 closed table it finds every node of every cycle.
 */
module ClosureCycle {
  import opened Common
  import opened Forest
  import opened Closure

  /** The keys the cycle query returns. */
  function Mutual(r: Rows): (s: set<(Id, Id)>)
    ensures forall a: Id, d: Id :: (a, d) in s <==> (a, d) in r && (d, a) in r && a != d
  {
    set k | k in r && (k.1, k.0) in r && k.0 != k.1
  }

  /** A sequence of stored (ancestor, descendant) steps. */
  ghost predicate Walk(r: Rows, w: seq<Id>)
  {
    |w| > 0 && forall i :: 0 <= i < |w| - 1 ==> (w[i], w[i + 1]) in r
  }

  /** `x` lies on a closed walk that visits some other node: a cycle of length two or more. */
  ghost predicate OnCycle(r: Rows, x: Id)
  {
    exists w, i :: ClosedWalk(r, w, x) && 0 <= i < |w| && w[i] != x
  }

  ghost predicate ClosedWalk(r: Rows, w: seq<Id>, x: Id)
  {
    Walk(r, w) && w[0] == x && w[|w| - 1] == x
  }

  ghost predicate TransitivelyClosed(r: Rows)
  {
    forall a: Id, b: Id, c: Id :: (a, b) in r && (b, c) in r ==> (a, c) in r
  }

  ghost predicate HasMutual(r: Rows, x: Id)
  {
    exists y: Id :: (x, y) in Mutual(r)
  }

  /** `rows` lists the query's result in whatever order the database returns it. */
  method DetectCircularReference(r: Rows, rows: seq<(Id, Id)>) returns (nodes: seq<Id>)
    requires forall k :: k in rows <==> k in Mutual(r)
    ensures NoDuplicates(nodes)
    ensures forall x :: x in nodes ==> OnCycle(r, x)
    ensures TransitivelyClosed(r) ==> forall x: Id :: OnCycle(r, x) ==> x in nodes
  {
    nodes := [];
    var seen: set<Id> := {};
    for i := 0 to |rows|
      invariant NoDuplicates(nodes)
      invariant forall x :: x in nodes <==> x in seen
      invariant forall j :: 0 <= j < i ==> rows[j].0 in seen && rows[j].1 in seen
      invariant forall x :: x in seen ==> HasMutual(r, x)
    {
      var (a, d) := rows[i];
      assert (a, d) in rows && (d, a) in Mutual(r);
      if a !in seen {
        nodes := nodes + [a];
        seen := seen + {a};
      }
      if d !in seen {
        nodes := nodes + [d];
        seen := seen + {d};
      }
    }
    forall x | x in nodes
      ensures OnCycle(r, x)
    {
      MutualOnCycle(r, x);
    }
    if TransitivelyClosed(r) {
      forall x: Id | OnCycle(r, x)
        ensures x in nodes
      {
        CycleHasMutual(r, x);
        var y: Id :| (x, y) in Mutual(r);
        assert (x, y) in rows;
      }
    }
  }

  lemma MutualOnCycle(r: Rows, x: Id)
    requires HasMutual(r, x)
    ensures OnCycle(r, x)
  {
    var y: Id :| (x, y) in Mutual(r);
    var w := [x, y, x];
    assert ClosedWalk(r, w, x);
    assert w[1] != x;
  }

  /** In a transitively closed table a walk of any length is one row. */
  lemma {:induction false} WalkIsRow(r: Rows, w: seq<Id>, i: nat, j: nat)
    requires TransitivelyClosed(r) && Walk(r, w) && i < j < |w|
    ensures (w[i], w[j]) in r
    decreases j
  {
    assert (w[j - 1], w[j - 1 + 1]) in r;
    if i == j - 1 {
    } else {
      WalkIsRow(r, w, i, j - 1);
    }
  }

  lemma CycleHasMutual(r: Rows, x: Id)
    requires TransitivelyClosed(r) && OnCycle(r, x)
    ensures HasMutual(r, x)
  {
    var w, i :| ClosedWalk(r, w, x) && 0 <= i < |w| && w[i] != x;
    WalkIsRow(r, w, 0, i);
    WalkIsRow(r, w, i, |w| - 1);
    assert (x, w[i]) in Mutual(r);
  }

  /** A table that stands for a forest is transitively closed and has no cycle to report. */
  lemma ForestHasNoCycle(r: Rows, f: Forest)
    requires Represents(r, f)
    ensures TransitivelyClosed(r) && Mutual(r) == {}
    ensures forall x: Id :: !OnCycle(r, x)
  {
    forall a: Id, b: Id, c: Id | (a, b) in r && (b, c) in r
      ensures (a, c) in r
    {
      AncTransitive(f, a, b, c);
    }
    forall a: Id, d: Id | (a, d) in r && (d, a) in r
      ensures a == d
    {
      AncBounds(f, a, d);
      AncBounds(f, d, a);
    }
    assert forall k :: k in Mutual(r) ==> (k.0, k.1) in r && (k.1, k.0) in r && k.0 != k.1;
    forall x: Id | OnCycle(r, x)
      ensures false
    {
      CycleHasMutual(r, x);
    }
  }
}
