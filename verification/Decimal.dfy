/** Decimal notation of naturals, most significant digit first: Go's `%d` and `%v` of unsigned integers. */
module Decimal {
  function Digits(n: nat): (d: seq<nat>)
    ensures |d| > 0 && forall i :: 0 <= i < |d| ==> d[i] < 10
  {
    if n < 10 then [n] else Digits(n / 10) + [n % 10]
  }

  function Value(d: seq<nat>): nat
  {
    if d == [] then 0 else Value(d[..|d| - 1]) * 10 + d[|d| - 1]
  }

  lemma {:induction false} ValueOfDigits(n: nat)
    ensures Value(Digits(n)) == n
    decreases n
  {
    if n < 10 {
    } else {
      ValueOfDigits(n / 10);
      var d := Digits(n);
      assert d[..|d| - 1] == Digits(n / 10);
    }
  }
}
