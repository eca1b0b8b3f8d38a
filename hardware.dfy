/**
 * The divisor search the acquisition code uses to pick a callback block
 * size that divides the number of samples.
 */
module Hardware {
  import opened Wrappers

  function Abs(x: int): nat
  {
    if x < 0 then -x else x
  }

  predicate Divides(d: int, n: int)
  {
    d != 0 && n % d == 0
  }

  /** The divisors of n among 1..k, ascending. */
  function DivisorsUpTo(n: int, k: int): (ds: seq<int>)
    ensures forall d :: d in ds <==> 1 <= d <= k && Divides(d, n)
    ensures forall a :: 0 <= a < |ds| ==> 1 <= ds[a] <= k
    ensures forall a, b :: 0 <= a < b < |ds| ==> ds[a] < ds[b]
    decreases k
  {
    if k <= 0 then []
    else DivisorsUpTo(n, k - 1) + (if Divides(k, n) then [k] else [])
  }

  /** The divisors of n from 1 to n, ascending. */
  function Divisors(n: int): seq<int>
  {
    DivisorsUpTo(n, n)
  }

  /** The index of the first element whose distance to the target is
      smallest: a minimum by key keeps the first of equal keys. */
  function ClosestIndex(s: seq<int>, target: int): (i: nat)
    requires s != []
    ensures i < |s|
    ensures forall j :: 0 <= j < |s| ==> Abs(s[i] - target) <= Abs(s[j] - target)
    ensures forall j :: 0 <= j < i ==> Abs(s[j] - target) > Abs(s[i] - target)
    decreases |s|
  {
    if |s| == 1 then 0
    else
      var b := ClosestIndex(s[..|s| - 1], target);
      if Abs(s[|s| - 1] - target) < Abs(s[b] - target) then |s| - 1 else b
  }

  /** `nearest_even_divisor(n, target)`: the divisor of n closest to the
      target, the smaller one on a tie. For n <= 0 there is no divisor and
      the minimum of the empty list raises, modelled as None. */
  function NearestEvenDivisor(n: int, target: int): (r: Option<int>)
    ensures r.Some? <==> n >= 1
    ensures r.Some? ==> 1 <= r.value <= n && Divides(r.value, n)
    ensures r.Some? ==> forall d :: 1 <= d <= n && Divides(d, n) ==> Abs(r.value - target) <= Abs(d - target)
    ensures r.Some? ==> forall d :: 1 <= d < r.value && Divides(d, n) ==> Abs(d - target) > Abs(r.value - target)
  {
    if n >= 1 then
      ClosestDivisor(n, target);
      Some(Divisors(n)[ClosestIndex(Divisors(n), target)])
    else
      None
  }

  lemma ClosestDivisor(n: int, target: int)
    requires n >= 1
    ensures Divisors(n) != []
    ensures var ds := Divisors(n); var r := ds[ClosestIndex(ds, target)];
      1 <= r <= n && Divides(r, n) &&
      (forall d :: 1 <= d <= n && Divides(d, n) ==> Abs(r - target) <= Abs(d - target)) &&
      (forall d :: 1 <= d < r && Divides(d, n) ==> Abs(d - target) > Abs(r - target))
  {
    var ds := Divisors(n);
    assert Divides(n, n) && n in ds;
    var r := ds[ClosestIndex(ds, target)];
    forall d | 1 <= d <= n && Divides(d, n)
      ensures Abs(r - target) <= Abs(d - target)
      ensures d < r ==> Abs(d - target) > Abs(r - target)
    {
      DivisorVersusClosest(n, target, d);
    }
  }

  /** Any divisor of n is no closer to the target than the chosen one, and
      a smaller divisor is strictly farther. */
  lemma DivisorVersusClosest(n: int, target: int, d: int)
    requires 1 <= d <= n && Divides(d, n)
    ensures Divisors(n) != []
    ensures var ds := Divisors(n); var r := ds[ClosestIndex(ds, target)];
      Abs(r - target) <= Abs(d - target) && (d < r ==> Abs(d - target) > Abs(r - target))
  {
    var ds := Divisors(n);
    assert d in ds;
    var j :| 0 <= j < |ds| && ds[j] == d;
    CompareToClosest(ds, target, j);
  }

  /** In an ascending list, the closest element is no farther than any
      other, and strictly closer than every smaller one. */
  lemma CompareToClosest(ds: seq<int>, target: int, j: nat)
    requires j < |ds|
    requires forall a, b :: 0 <= a < b < |ds| ==> ds[a] < ds[b]
    ensures var r := ds[ClosestIndex(ds, target)];
      Abs(r - target) <= Abs(ds[j] - target) &&
      (ds[j] < r ==> Abs(ds[j] - target) > Abs(r - target))
  {
    var i := ClosestIndex(ds, target);
    if ds[j] < ds[i] {
      assert j < i;
    }
  }
}
