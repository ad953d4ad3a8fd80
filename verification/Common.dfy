/** Notions several modules share. */
module Common {
  datatype Option<T> = None | Some(value: T)

  /** Go's int64 ranges over -TWO63 .. TWO63 - 1. */
  const TWO63: nat := 0x8000_0000_0000_0000

  ghost predicate NoDuplicates<T>(s: seq<T>)
  {
    forall i, j :: 0 <= i < j < |s| ==> s[i] != s[j]
  }

  /** `(page - 1) * pageSize`, by addition. */
  function Offset(page: nat, pageSize: nat): nat
    requires page >= 1
  {
    if page == 1 then 0 else Offset(page - 1, pageSize) + pageSize
  }

  lemma {:induction false} OffsetIs(page: nat, pageSize: nat)
    requires page >= 1
    ensures Offset(page, pageSize) == (page - 1) * pageSize
    decreases page
  {
    if page == 1 {
    } else {
      OffsetIs(page - 1, pageSize);
      assert (page - 2) * pageSize + pageSize == (page - 1) * pageSize;
    }
  }

  /** `OFFSET (page - 1) * pageSize LIMIT pageSize` of one listing. */
  function Page<T>(all: seq<T>, page: nat, pageSize: nat): (list: seq<T>)
    requires page >= 1
    ensures var lo := Offset(page, pageSize);
            && |list| == (if |all| <= lo then 0 else if |all| <= lo + pageSize then |all| - lo else pageSize)
            && (forall i :: 0 <= i < |list| ==> lo + i < |all| && list[i] == all[lo + i])
  {
    var lo := Offset(page, pageSize);
    if |all| <= lo then []
    else if |all| <= lo + pageSize then all[lo..]
    else all[lo..lo + pageSize]
  }

  /** The page after `lo` rows is the next slice, short only at the end. */
  lemma PageIsNext<T>(all: seq<T>, page: nat, pageSize: nat, lo: nat)
    requires page >= 1 && lo == Offset(page, pageSize) <= |all|
    ensures var list := Page(all, page, pageSize);
            && lo + |list| <= |all| && list == all[lo..lo + |list|] && all[..lo] + list == all[..lo + |list|]
            && (|list| < pageSize ==> lo + |list| == |all|)
  {
  }
}
