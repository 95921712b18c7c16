/** The nearest-grid locator: for one query coordinate, the two axis
    indices whose coordinates are closest to it, as the first two entries of
    an argsort of absolute differences. */
module Locator {

  /** Absolute difference between an axis coordinate and the query. */
  function Dist(a: real, q: real): (r: real)
    ensures r >= 0.0
    ensures r == 0.0 <==> a == q
  {
    if a >= q then a - q else q - a
  }

  /** `i1` minimises the distance to `q` over every index of `axis`, and `i2`
      minimises it over every index other than `i1`.  Ties are left open:
      any pair meeting this is an acceptable answer. */
  ghost predicate IsNearestPair(axis: seq<real>, q: real, i1: nat, i2: nat)
  {
    && i1 < |axis| && i2 < |axis| && i1 != i2
    && (forall k :: 0 <= k < |axis| ==> Dist(axis[i1], q) <= Dist(axis[k], q))
    && (forall k :: 0 <= k < |axis| && k != i1 ==> Dist(axis[i2], q) <= Dist(axis[k], q))
  }

  /** `p` is a result of argsort of the distances of `axis` to `q`: a
      permutation of the indices of `axis`, ordered by non-decreasing
      distance.  The order among equal distances is unconstrained, which is
      what a non-stable sort may produce. */
  ghost predicate IsArgsort(axis: seq<real>, q: real, p: seq<nat>)
  {
    && |p| == |axis|
    && (forall j :: 0 <= j < |p| ==> p[j] < |axis|)
    && (forall j, j' :: 0 <= j < j' < |p| ==> p[j] != p[j'])
    && (forall k: nat :: k < |axis| ==> k in p)
    && (forall j, j' :: 0 <= j <= j' < |p| ==> Dist(axis[p[j]], q) <= Dist(axis[p[j']], q))
  }

  /** Taking the first two entries of any argsort, as the program does,
      yields a nearest pair. */
  lemma ArgsortPrefixIsNearestPair(axis: seq<real>, q: real, p: seq<nat>)
    requires |axis| >= 2
    requires IsArgsort(axis, q, p)
    ensures IsNearestPair(axis, q, p[0], p[1])
  {
    forall k | 0 <= k < |axis|
      ensures Dist(axis[p[0]], q) <= Dist(axis[k], q)
      ensures k != p[0] ==> Dist(axis[p[1]], q) <= Dist(axis[k], q)
    {
      assert k in p;
      var j :| 0 <= j < |p| && p[j] == k;
      if k != p[0] {
        assert j != 0;
      }
    }
  }

  /** Two nearest pairs for the same query agree on their distances, so the
      unresolved tie-breaking can change which cells are picked but not how
      far away they are. */
  lemma NearestPairDistancesAgree(axis: seq<real>, q: real, i1: nat, i2: nat, j1: nat, j2: nat)
    requires IsNearestPair(axis, q, i1, i2)
    requires IsNearestPair(axis, q, j1, j2)
    ensures Dist(axis[i1], q) == Dist(axis[j1], q)
    ensures Dist(axis[i2], q) == Dist(axis[j2], q)
  {
    if i1 != j1 {
      assert Dist(axis[i2], q) <= Dist(axis[j1], q);
      assert Dist(axis[j2], q) <= Dist(axis[i1], q);
    }
  }

  /** One scan over the axis keeping the best and second-best index; it
      returns a nearest pair, the property ArgsortPrefixIsNearestPair shows
      every argsort prefix has. */
  method NearestTwo(axis: seq<real>, q: real) returns (i1: nat, i2: nat)
    requires |axis| >= 2
    ensures IsNearestPair(axis, q, i1, i2)
  {
    if Dist(axis[1], q) < Dist(axis[0], q) {
      i1, i2 := 1, 0;
    } else {
      i1, i2 := 0, 1;
    }
    var k := 2;
    while k < |axis|
      invariant 2 <= k <= |axis|
      invariant i1 < k && i2 < k && i1 != i2
      invariant forall j :: 0 <= j < k ==> Dist(axis[i1], q) <= Dist(axis[j], q)
      invariant forall j :: 0 <= j < k && j != i1 ==> Dist(axis[i2], q) <= Dist(axis[j], q)
    {
      var d := Dist(axis[k], q);
      if d < Dist(axis[i1], q) {
        i1, i2 := k, i1;
      } else if d < Dist(axis[i2], q) {
        i2 := k;
      }
      k := k + 1;
    }
  }
}
