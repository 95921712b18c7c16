/** Sentinel masking and inverse-distance weighting of candidate cell
    series, including the fallback to an all-missing series when no
    candidate can be used, and the equal-weight variant of the state-level
    block. */
module Interpolation {
  import opened Wrappers

  /** The value the annual and monthly grids use for "no data". */
  const Sentinel: real := -9999.0

  function MaskValue(x: real): Option<real> {
    if x == Sentinel then None else Some(x)
  }

  /** Replaces every sentinel by the missing marker. */
  function Mask(s: seq<real>): (r: seq<Option<real>>)
    ensures |r| == |s|
    ensures forall i :: 0 <= i < |s| ==> (r[i] == None <==> s[i] == Sentinel)
    ensures forall i :: 0 <= i < |s| && s[i] != Sentinel ==> r[i] == Some(s[i])
    ensures Some(Sentinel) !in r
  {
    seq(|s|, i requires 0 <= i < |s| => MaskValue(s[i]))
  }

  /** Writes the sentinel back in place of every missing marker. */
  function Unmask(s: seq<Option<real>>): (r: seq<real>)
    ensures |r| == |s|
  {
    seq(|s|, i requires 0 <= i < |s| => s[i].GetOr(Sentinel))
  }

  /** Masking loses nothing: the raw series can be recovered from it. */
  lemma UnmaskMask(s: seq<real>)
    ensures Unmask(Mask(s)) == s
  {
  }

  /** The series has no missing element (`not np.isnan(precip).any()`). */
  predicate Complete(s: seq<Option<real>>) {
    forall i :: 0 <= i < |s| ==> s[i].Some?
  }

  /** A masked series is complete exactly when the raw series holds no
      sentinel. */
  lemma CompleteMaskIffNoSentinel(s: seq<real>)
    ensures Complete(Mask(s)) <==> Sentinel !in s
  {
    if Sentinel in s {
      var i :| 0 <= i < |s| && s[i] == Sentinel;
      assert Mask(s)[i] == None;
    }
  }

  /** One surrounding grid cell: its masked series and the distance used to
      weight it. */
  datatype Candidate = Candidate(series: seq<Option<real>>, dist: real)

  /** Every candidate has `n` time steps and a positive distance. */
  predicate WellFormed(cs: seq<Candidate>, n: nat) {
    forall i :: 0 <= i < |cs| ==> |cs[i].series| == n && cs[i].dist > 0.0
  }

  /** Some candidate passes the whole-series test. */
  predicate AnyIncluded(cs: seq<Candidate>) {
    exists i :: 0 <= i < |cs| && Complete(cs[i].series)
  }

  /** Numerator of the weighting at step `t`: the sum of value/distance over
      the candidates that pass the whole-series test, in list order. */
  function Num(cs: seq<Candidate>, t: nat): real
    requires forall i :: 0 <= i < |cs| ==> t < |cs[i].series| && cs[i].dist > 0.0
  {
    if |cs| == 0 then 0.0
    else
      var c := cs[|cs| - 1];
      Num(cs[..|cs| - 1], t) + (if Complete(c.series) then c.series[t].value / c.dist else 0.0)
  }

  /** Denominator of the weighting: the sum of 1/distance over the
      candidates that pass the whole-series test. */
  function Den(cs: seq<Candidate>): real
    requires forall i :: 0 <= i < |cs| ==> cs[i].dist > 0.0
  {
    if |cs| == 0 then 0.0
    else
      var c := cs[|cs| - 1];
      Den(cs[..|cs| - 1]) + (if Complete(c.series) then 1.0 / c.dist else 0.0)
  }

  /** The denominator is positive exactly when some candidate is included;
      otherwise it and every numerator stay zero. */
  lemma {:induction false} DenPositiveIffIncluded(cs: seq<Candidate>, n: nat)
    requires WellFormed(cs, n)
    ensures Den(cs) >= 0.0
    ensures Den(cs) > 0.0 <==> AnyIncluded(cs)
    ensures !AnyIncluded(cs) ==> forall t :: 0 <= t < n ==> Num(cs, t) == 0.0
  {
    if |cs| > 0 {
      var p := cs[..|cs| - 1];
      DenPositiveIffIncluded(p, n);
      if AnyIncluded(p) {
        var i :| 0 <= i < |p| && Complete(p[i].series);
        assert cs[i] == p[i];
      }
      if AnyIncluded(cs) && !Complete(cs[|cs| - 1].series) {
        var i :| 0 <= i < |cs| && Complete(cs[i].series);
        assert p[i] == cs[i];
      }
    }
  }

  /** The series of `n` missing markers the program falls back to. */
  function AllMissing(n: nat): (r: seq<Option<real>>)
    ensures |r| == n
    ensures forall t :: 0 <= t < n ==> r[t] == None
  {
    seq(n, _ => None)
  }

  /** Inverse-distance weighting of the candidates.  With no candidate
      included the program divides the integer 0 by the integer 0, the
      exception is caught, and the result is all missing. */
  function Idw(cs: seq<Candidate>, n: nat): (r: seq<Option<real>>)
    requires WellFormed(cs, n)
    ensures |r| == n
    ensures !AnyIncluded(cs) ==> r == AllMissing(n)
    ensures AnyIncluded(cs) ==> forall t :: 0 <= t < n ==> r[t].Some?
  {
    if !AnyIncluded(cs) then AllMissing(n)
    else
      DenPositiveIffIncluded(cs, n);
      seq(n, t requires 0 <= t < n => Some(Num(cs, t) / Den(cs)))
  }

  /** The weighting loop of the program: it walks the candidates once,
      adding value/distance to an element-wise numerator and 1/distance to
      the denominator for every candidate whose series has no missing
      element, then divides. */
  method InterpolateSeries(cs: seq<Candidate>, n: nat) returns (r: seq<Option<real>>)
    requires WellFormed(cs, n)
    ensures r == Idw(cs, n)
  {
    var numerator := seq(n, _ => 0.0);
    var denominator := 0.0;
    var included := false;
    var k := 0;
    while k < |cs|
      invariant 0 <= k <= |cs|
      invariant |numerator| == n
      invariant forall t :: 0 <= t < n ==> numerator[t] == Num(cs[..k], t)
      invariant denominator == Den(cs[..k])
      invariant included <==> AnyIncluded(cs[..k])
    {
      var c := cs[k];
      assert cs[..k + 1][..k] == cs[..k];
      if forall t :: 0 <= t < n ==> c.series[t].Some? {
        numerator := seq(n, t requires 0 <= t < n => numerator[t] + c.series[t].value / c.dist);
        denominator := denominator + 1.0 / c.dist;
        included := true;
        assert cs[..k + 1][k] == c;
      } else {
        if AnyIncluded(cs[..k + 1]) {
          var i :| 0 <= i < k + 1 && Complete(cs[..k + 1][i].series);
          assert i != k;
          assert cs[..k][i] == cs[..k + 1][i];
        }
      }
      k := k + 1;
    }
    assert cs[..|cs|] == cs;
    if !included {
      r := AllMissing(n);
    } else {
      DenPositiveIffIncluded(cs, n);
      r := seq(n, t requires 0 <= t < n => Some(numerator[t] / denominator));
    }
  }

  /** Dividing by a positive distance keeps a value above a bound scaled by
      the same weight. */
  lemma ScaledAtLeast(v: real, lo: real, d: real)
    requires d > 0.0 && lo <= v
    ensures lo * (1.0 / d) <= v / d
  {
  }

  /** Dividing by a positive distance keeps a value below a bound scaled by
      the same weight. */
  lemma ScaledAtMost(v: real, hi: real, d: real)
    requires d > 0.0 && v <= hi
    ensures v / d <= hi * (1.0 / d)
  {
  }

  /** A quotient by a positive denominator respects bounds on the
      numerator scaled by that denominator. */
  lemma QuotientBetween(num: real, den: real, lo: real, hi: real)
    requires den > 0.0 && lo * den <= num <= hi * den
    ensures lo <= num / den <= hi
  {
  }

  /** What the last candidate adds to the numerator and the denominator. */
  function TermNum(c: Candidate, t: nat): real
    requires t < |c.series| && c.dist > 0.0
  {
    if Complete(c.series) then c.series[t].value / c.dist else 0.0
  }

  function TermDen(c: Candidate): real
    requires c.dist > 0.0
  {
    if Complete(c.series) then 1.0 / c.dist else 0.0
  }

  lemma NumDenSnoc(cs: seq<Candidate>, t: nat)
    requires |cs| > 0
    requires forall i :: 0 <= i < |cs| ==> t < |cs[i].series| && cs[i].dist > 0.0
    ensures Num(cs, t) == Num(cs[..|cs| - 1], t) + TermNum(cs[|cs| - 1], t)
    ensures Den(cs) == Den(cs[..|cs| - 1]) + TermDen(cs[|cs| - 1])
  {
  }

  /** One candidate's contribution respects a lower bound on its value. */
  lemma TermAtLeast(c: Candidate, t: nat, lo: real)
    requires t < |c.series| && c.dist > 0.0
    requires Complete(c.series) ==> lo <= c.series[t].value
    ensures lo * TermDen(c) <= TermNum(c, t)
  {
    if Complete(c.series) {
      ScaledAtLeast(c.series[t].value, lo, c.dist);
    }
  }

  /** One candidate's contribution respects an upper bound on its value. */
  lemma TermAtMost(c: Candidate, t: nat, hi: real)
    requires t < |c.series| && c.dist > 0.0
    requires Complete(c.series) ==> c.series[t].value <= hi
    ensures TermNum(c, t) <= hi * TermDen(c)
  {
    if Complete(c.series) {
      ScaledAtMost(c.series[t].value, hi, c.dist);
    }
  }

  /** Sum of a list of reals. */
  function Sum(xs: seq<real>): real
  {
    if |xs| == 0 then 0.0 else Sum(xs[..|xs| - 1]) + xs[|xs| - 1]
  }

  /** Term-wise scaled lower bounds carry over to the sums. */
  lemma {:induction false} SumScaledAtLeast(ws: seq<real>, xs: seq<real>, lo: real)
    requires |ws| == |xs|
    requires forall i :: 0 <= i < |xs| ==> lo * ws[i] <= xs[i]
    ensures lo * Sum(ws) <= Sum(xs)
  {
    if |xs| > 0 {
      var k := |xs| - 1;
      SumScaledAtLeast(ws[..k], xs[..k], lo);
      AddAtLeast(lo, Sum(ws), Sum(xs), Sum(ws[..k]), Sum(xs[..k]), ws[k], xs[k]);
    }
  }

  /** Term-wise scaled upper bounds carry over to the sums. */
  lemma {:induction false} SumScaledAtMost(ws: seq<real>, xs: seq<real>, hi: real)
    requires |ws| == |xs|
    requires forall i :: 0 <= i < |xs| ==> xs[i] <= hi * ws[i]
    ensures Sum(xs) <= hi * Sum(ws)
  {
    if |xs| > 0 {
      var k := |xs| - 1;
      SumScaledAtMost(ws[..k], xs[..k], hi);
      AddAtMost(hi, Sum(ws), Sum(xs), Sum(ws[..k]), Sum(xs[..k]), ws[k], xs[k]);
    }
  }

  /** Scaled lower bounds on two summands add up. */
  lemma AddAtLeast(lo: real, d: real, n: real, b: real, a: real, y: real, x: real)
    requires d == b + y && n == a + x
    requires lo * b <= a && lo * y <= x
    ensures lo * d <= n
  {
  }

  /** Scaled upper bounds on two summands add up. */
  lemma AddAtMost(hi: real, d: real, n: real, b: real, a: real, y: real, x: real)
    requires d == b + y && n == a + x
    requires a <= hi * b && x <= hi * y
    ensures n <= hi * d
  {
  }

  /** Each candidate's contribution to the numerator at step `t`, and to
      the denominator. */
  function TermNums(cs: seq<Candidate>, t: nat): (r: seq<real>)
    requires forall i :: 0 <= i < |cs| ==> t < |cs[i].series| && cs[i].dist > 0.0
    ensures |r| == |cs|
  {
    seq(|cs|, i requires 0 <= i < |cs| => TermNum(cs[i], t))
  }

  function TermDens(cs: seq<Candidate>): (r: seq<real>)
    requires forall i :: 0 <= i < |cs| ==> cs[i].dist > 0.0
    ensures |r| == |cs|
  {
    seq(|cs|, i requires 0 <= i < |cs| => TermDen(cs[i]))
  }

  /** The weighted sums are the sums of the candidates' contributions. */
  lemma {:induction false} NumDenAreSums(cs: seq<Candidate>, t: nat)
    requires forall i :: 0 <= i < |cs| ==> t < |cs[i].series| && cs[i].dist > 0.0
    ensures Num(cs, t) == Sum(TermNums(cs, t))
    ensures Den(cs) == Sum(TermDens(cs))
  {
    if |cs| > 0 {
      var k := |cs| - 1;
      NumDenAreSums(cs[..k], t);
      NumDenSnoc(cs, t);
      assert TermNums(cs, t)[..k] == TermNums(cs[..k], t);
      assert TermDens(cs)[..k] == TermDens(cs[..k]);
    }
  }

  /** Lower bounds on the included values carry over to the weighted sums. */
  lemma NumAtLeast(cs: seq<Candidate>, t: nat, lo: real)
    requires forall i :: 0 <= i < |cs| ==> t < |cs[i].series| && cs[i].dist > 0.0
    requires forall i :: 0 <= i < |cs| && Complete(cs[i].series) ==> lo <= cs[i].series[t].value
    ensures lo * Den(cs) <= Num(cs, t)
  {
    NumDenAreSums(cs, t);
    var ws, xs := TermDens(cs), TermNums(cs, t);
    forall i | 0 <= i < |xs|
      ensures lo * ws[i] <= xs[i]
    {
      TermAtLeast(cs[i], t, lo);
    }
    SumScaledAtLeast(ws, xs, lo);
  }

  /** Upper bounds on the included values carry over to the weighted sums. */
  lemma NumAtMost(cs: seq<Candidate>, t: nat, hi: real)
    requires forall i :: 0 <= i < |cs| ==> t < |cs[i].series| && cs[i].dist > 0.0
    requires forall i :: 0 <= i < |cs| && Complete(cs[i].series) ==> cs[i].series[t].value <= hi
    ensures Num(cs, t) <= hi * Den(cs)
  {
    NumDenAreSums(cs, t);
    var ws, xs := TermDens(cs), TermNums(cs, t);
    forall i | 0 <= i < |xs|
      ensures xs[i] <= hi * ws[i]
    {
      TermAtMost(cs[i], t, hi);
    }
    SumScaledAtMost(ws, xs, hi);
  }

  /** When some candidate is included, each output value is a convex
      combination of the included candidates' values at that step, so it
      lies within any bounds they all respect. */
  lemma IdwBounded(cs: seq<Candidate>, n: nat, t: nat, lo: real, hi: real)
    requires WellFormed(cs, n)
    requires AnyIncluded(cs) && t < n
    requires forall i :: 0 <= i < |cs| && Complete(cs[i].series) ==>
               lo <= cs[i].series[t].value <= hi
    ensures lo <= Idw(cs, n)[t].value <= hi
  {
    DenPositiveIffIncluded(cs, n);
    NumAtLeast(cs, t, lo);
    NumAtMost(cs, t, hi);
    QuotientBetween(Num(cs, t), Den(cs), lo, hi);
  }

  /** The values at step `t` of the included candidates, in list order. */
  function IncludedValues(cs: seq<Candidate>, t: nat): (vs: seq<real>)
    requires forall i :: 0 <= i < |cs| ==> t < |cs[i].series|
    ensures forall i :: 0 <= i < |cs| && Complete(cs[i].series) ==> cs[i].series[t].value in vs
    ensures forall v :: v in vs ==>
              exists i :: 0 <= i < |cs| && Complete(cs[i].series) && cs[i].series[t].value == v
  {
    if |cs| == 0 then []
    else
      var c := cs[|cs| - 1];
      var p := cs[..|cs| - 1];
      var rest := IncludedValues(p, t);
      assert forall i :: 0 <= i < |p| ==> p[i] == cs[i];
      if Complete(c.series) then rest + [c.series[t].value] else rest
  }

  function Min(vs: seq<real>): (m: real)
    requires |vs| > 0
    ensures m in vs && forall i :: 0 <= i < |vs| ==> m <= vs[i]
  {
    if |vs| == 1 then vs[0]
    else
      var m := Min(vs[..|vs| - 1]);
      if vs[|vs| - 1] < m then vs[|vs| - 1] else m
  }

  function Max(vs: seq<real>): (m: real)
    requires |vs| > 0
    ensures m in vs && forall i :: 0 <= i < |vs| ==> vs[i] <= m
  {
    if |vs| == 1 then vs[0]
    else
      var m := Max(vs[..|vs| - 1]);
      if vs[|vs| - 1] > m then vs[|vs| - 1] else m
  }

  /** Each output value lies between the smallest and the largest value the
      included candidates take at that step. */
  lemma IdwWithinIncludedRange(cs: seq<Candidate>, n: nat, t: nat)
    requires WellFormed(cs, n)
    requires AnyIncluded(cs) && t < n
    ensures |IncludedValues(cs, t)| > 0
    ensures Min(IncludedValues(cs, t)) <= Idw(cs, n)[t].value <= Max(IncludedValues(cs, t))
  {
    var vs := IncludedValues(cs, t);
    var i :| 0 <= i < |cs| && Complete(cs[i].series);
    assert cs[i].series[t].value in vs;
    var lo, hi := Min(vs), Max(vs);
    forall j | 0 <= j < |cs| && Complete(cs[j].series)
      ensures lo <= cs[j].series[t].value <= hi
    {
      assert cs[j].series[t].value in vs;
    }
    IdwBounded(cs, n, t, lo, hi);
  }

  /** The candidates that pass the whole-series test, in list order. */
  function Included(cs: seq<Candidate>): (r: seq<Candidate>)
    ensures |r| <= |cs|
    ensures forall c :: c in r <==> c in cs && Complete(c.series)
  {
    if |cs| == 0 then []
    else
      var c := cs[|cs| - 1];
      var rest := Included(cs[..|cs| - 1]);
      assert cs == cs[..|cs| - 1] + [c];
      if Complete(c.series) then rest + [c] else rest
  }

  /** `Included` is a filter: it keeps a single candidate exactly when that
      candidate passes the whole-series test, and distributes over
      concatenation, so every candidate that passes is kept once and in
      list order, like the program's `zip` loop. */
  lemma IncludedSingleton(c: Candidate)
    ensures Included([c]) == if Complete(c.series) then [c] else []
  {
  }

  lemma {:induction false} IncludedAppend(a: seq<Candidate>, b: seq<Candidate>)
    ensures Included(a + b) == Included(a) + Included(b)
  {
    if |b| > 0 {
      var ab := a + b;
      var p := b[..|b| - 1];
      assert ab[..|ab| - 1] == a + p;
      assert ab[|ab| - 1] == b[|b| - 1];
      IncludedAppend(a, p);
    } else {
      assert a + b == a;
    }
  }

  lemma {:induction false} SumsOverIncluded(cs: seq<Candidate>, n: nat)
    requires WellFormed(cs, n)
    ensures WellFormed(Included(cs), n)
    ensures Den(Included(cs)) == Den(cs)
    ensures forall t :: 0 <= t < n ==> Num(Included(cs), t) == Num(cs, t)
  {
    var r := Included(cs);
    assert forall i :: 0 <= i < |r| ==> r[i] in cs;
    if |cs| > 0 {
      var c := cs[|cs| - 1];
      var p := cs[..|cs| - 1];
      SumsOverIncluded(p, n);
      if Complete(c.series) {
        assert r[..|r| - 1] == Included(p);
      }
    }
  }

  /** A candidate whose series has a missing element anywhere contributes
      nothing at any step: weighting only the candidates that pass the
      whole-series test gives the same result. */
  lemma IdwIgnoresIncomplete(cs: seq<Candidate>, n: nat)
    requires WellFormed(cs, n)
    ensures WellFormed(Included(cs), n)
    ensures Idw(Included(cs), n) == Idw(cs, n)
  {
    SumsOverIncluded(cs, n);
    var r := Included(cs);
    if AnyIncluded(cs) {
      var i :| 0 <= i < |cs| && Complete(cs[i].series);
      assert cs[i] in r;
    }
    if AnyIncluded(r) {
      var i :| 0 <= i < |r| && Complete(r[i].series);
      assert r[i] in cs;
    }
  }

  /** Raises the value of candidate `i` at step `t` to `v`. */
  function RaiseAt(cs: seq<Candidate>, i: nat, t: nat, v: real): (r: seq<Candidate>)
    requires i < |cs| && t < |cs[i].series|
    ensures |r| == |cs|
    ensures |r[i].series| == |cs[i].series| && r[i].dist == cs[i].dist
    ensures Complete(cs[i].series) ==> Complete(r[i].series)
    ensures forall j :: 0 <= j < |cs| && j != i ==> r[j] == cs[j]
  {
    cs[i := cs[i].(series := cs[i].series[t := Some(v)])]
  }

  lemma {:induction false} NumRaiseAt(cs: seq<Candidate>, n: nat, i: nat, t: nat, v: real)
    requires WellFormed(cs, n)
    requires i < |cs| && t < n && Complete(cs[i].series)
    ensures WellFormed(RaiseAt(cs, i, t, v), n)
    ensures Den(RaiseAt(cs, i, t, v)) == Den(cs)
    ensures Num(RaiseAt(cs, i, t, v), t) ==
            Num(cs, t) + (v - cs[i].series[t].value) / cs[i].dist
  {
    var r := RaiseAt(cs, i, t, v);
    var p := cs[..|cs| - 1];
    assert r[..|r| - 1] == (if i == |cs| - 1 then p else RaiseAt(p, i, t, v));
    NumDenSnoc(cs, t);
    NumDenSnoc(r, t);
    if i == |cs| - 1 {
      assert Complete(r[i].series) && r[i].series[t].value == v;
      QuotientShift(v, cs[i].series[t].value, cs[i].dist);
    } else {
      NumRaiseAt(p, n, i, t, v);
    }
  }

  /** Changing a numerator changes the quotient by the change over the
      same denominator. */
  lemma QuotientShift(v: real, u: real, d: real)
    requires d > 0.0
    ensures v / d == u / d + (v - u) / d
  {
  }

  /** A candidate that passes the whole-series test contributes at every
      step: raising its value at one step strictly raises the output at that
      step. */
  lemma IdwIncreasesWithIncludedValue(cs: seq<Candidate>, n: nat, i: nat, t: nat, v: real)
    requires WellFormed(cs, n)
    requires i < |cs| && t < n && Complete(cs[i].series)
    requires cs[i].series[t].value < v
    ensures WellFormed(RaiseAt(cs, i, t, v), n)
    ensures Idw(cs, n)[t].value < Idw(RaiseAt(cs, i, t, v), n)[t].value
  {
    var r := RaiseAt(cs, i, t, v);
    NumRaiseAt(cs, n, i, t, v);
    assert Complete(r[i].series);
    DenPositiveIffIncluded(cs, n);
    var d := Den(cs);
    var delta := (v - cs[i].series[t].value) / cs[i].dist;
    assert delta > 0.0;
    assert (Num(cs, t) + delta) / d - Num(cs, t) / d == delta / d;
  }

  /** The state-level block: no masking, and every one of the four series is
      weighted by the reciprocal of the first cell's distance. */
  function EqualWeightBlend(p1: seq<real>, p2: seq<real>, p3: seq<real>, p4: seq<real>, d1: real): (r: seq<real>)
    requires |p2| == |p1| && |p3| == |p1| && |p4| == |p1|
    requires d1 > 0.0
    ensures |r| == |p1|
  {
    var w := 1.0 / d1;
    seq(|p1|, t requires 0 <= t < |p1| =>
      (p1[t] * w + p2[t] * w + p3[t] * w + p4[t] * w) / (w + w + w + w))
  }

  /** Since all four weights are equal, the state-level blend is the plain
      arithmetic mean of the four series, sentinels included. */
  lemma EqualWeightBlendIsMean(p1: seq<real>, p2: seq<real>, p3: seq<real>, p4: seq<real>, d1: real, t: nat)
    requires |p2| == |p1| && |p3| == |p1| && |p4| == |p1|
    requires d1 > 0.0 && t < |p1|
    ensures EqualWeightBlend(p1, p2, p3, p4, d1)[t] == (p1[t] + p2[t] + p3[t] + p4[t]) / 4.0
  {
    var w := 1.0 / d1;
    var s := p1[t] + p2[t] + p3[t] + p4[t];
    assert p1[t] * w + p2[t] * w + p3[t] * w + p4[t] * w == s * w;
    assert w + w + w + w == 4.0 * w;
    assert (s * w) / (4.0 * w) == s / 4.0;
  }
}
