/** CUSUM change-point: where a series breaks, and by how much. */
module Drift {
  import opened Numbers
  import opened Results

  /** Sum of the first `n` samples. */
  function Prefix(s: seq<real>, n: nat): real
    requires n <= |s|
  {
    if n == 0 then 0.0 else Prefix(s, n - 1) + s[n - 1]
  }

  function Mean(s: seq<real>): real
    requires s != []
  {
    Prefix(s, |s|) / |s| as real
  }

  /** Cumulative deviation of the first `n` samples from the mean of all. */
  function Deviation(s: seq<real>, n: nat): real
    requires s != [] && n <= |s|
  {
    Prefix(s, n) - n as real * Mean(s)
  }

  datatype Changepoint = Changepoint(index: nat, delta: real, cusum: real)

  method SumOf(s: seq<real>, from: nat, to: nat) returns (sum: real)
    requires from <= to <= |s|
    ensures sum == Prefix(s, to) - Prefix(s, from)
  {
    sum := 0.0;
    for i := from to to
      invariant sum == Prefix(s, i) - Prefix(s, from)
    {
      sum := sum + s[i];
    }
  }

  lemma MeanTimesLength(s: seq<real>)
    requires s != []
    ensures Mean(s) * |s| as real == Prefix(s, |s|)
    ensures |s| as real * Mean(s) == Prefix(s, |s|)
  {
  }

  /** The deviations of the whole series cancel. */
  lemma DeviationsCancel(s: seq<real>)
    requires s != []
    ensures Deviation(s, 0) == 0.0 && Deviation(s, |s|) == 0.0
  {
    MeanTimesLength(s);
  }

  lemma DeviationStep(s: seq<real>, n: nat)
    requires n < |s|
    ensures Deviation(s, n + 1) == Deviation(s, n) + (s[n] - Mean(s))
  {
    var m := Mean(s);
    assert (n + 1) as real * m == n as real * m + m;
  }

  /** `k` is the first prefix length with the largest absolute deviation. */
  ghost predicate FirstPeak(s: seq<real>, k: nat)
    requires s != []
  {
    && k <= |s|
    && (forall i :: 0 <= i <= |s| ==> Abs(Deviation(s, i)) <= Abs(Deviation(s, k)))
    && (forall i :: 0 <= i < k ==> Abs(Deviation(s, i)) < Abs(Deviation(s, k)))
  }

  ghost predicate Flat(s: seq<real>) {
    forall i, j :: 0 <= i < |s| && 0 <= j < |s| ==> s[i] == s[j]
  }

  lemma {:induction false} FlatPrefix(s: seq<real>, n: nat, c: real)
    requires n <= |s| && forall i :: 0 <= i < |s| ==> s[i] == c
    ensures Prefix(s, n) == n as real * c
  {
    if n > 0 { FlatPrefix(s, n - 1, c); }
  }

  lemma {:induction false} FlatDeviation(s: seq<real>, n: nat)
    requires s != [] && n <= |s| && Flat(s)
    ensures Deviation(s, n) == 0.0
  {
    var c := s[0];
    FlatPrefix(s, |s|, c);
    FlatPrefix(s, n, c);
    MeanTimesLength(s);
    Cancel(Mean(s), c, |s| as real);
  }

  lemma Cancel(x: real, y: real, n: real)
    requires n > 0.0 && x * n == n * y
    ensures x == y
  {
  }

  /** A series is flat exactly when it never deviates from its mean. */
  lemma FlatExactly(s: seq<real>)
    requires s != []
    ensures Flat(s) <==> forall n :: 0 <= n <= |s| ==> Deviation(s, n) == 0.0
  {
    hide Deviation;
    if Flat(s) {
      forall n | 0 <= n <= |s|
        ensures Deviation(s, n) == 0.0
      {
        FlatDeviation(s, n);
      }
    }
    if forall n :: 0 <= n <= |s| ==> Deviation(s, n) == 0.0 {
      forall i | 0 <= i < |s|
        ensures s[i] == Mean(s)
      {
        DeviationStep(s, i);
        assert Deviation(s, i) == 0.0 && Deviation(s, i + 1) == 0.0;
      }
    }
  }

  /** `mean(after) - mean(before)` at a split. */
  function Shift(s: seq<real>, k: nat): real
    requires 0 < k < |s|
  {
    (Prefix(s, |s|) - Prefix(s, k)) / (|s| - k) as real - Prefix(s, k) / k as real
  }

  lemma ShiftArithmetic(k: real, n: real, pk: real, pn: real, u: real, v: real, m: real)
    requires u * (n - k) == pn - pk && v * k == pk && n * m == pn
    ensures (u - v) * k * (n - k) == -(n * (pk - k * m))
  {
    assert (u - v) * k * (n - k) == (u * (n - k)) * k - (v * k) * (n - k);
    assert (pn - pk) * k - pk * (n - k) == pn * k - pk * n;
    assert n * (pk - k * m) == n * pk - (n * m) * k;
  }

  /** The CUSUM identity: the shift at a split is the deviation there, rescaled, with opposite sign. */
  lemma CusumIdentity(s: seq<real>, k: nat)
    requires 0 < k < |s|
    ensures Shift(s, k) * k as real * (|s| - k) as real == -(|s| as real * Deviation(s, k))
  {
    hide Prefix;
    var kr, n := k as real, |s| as real;
    var pk, pn := Prefix(s, k), Prefix(s, |s|);
    MeanTimesLength(s);
    assert (|s| - k) as real == n - kr;
    ShiftArithmetic(kr, n, pk, pn, (pn - pk) / (n - kr), pk / kr, Mean(s));
  }

  /** What `changepoint` promises, exactly. */
  ghost predicate IsChangepoint(s: seq<real>, r: Option<Changepoint>) {
    match r
    case None => |s| < 2 || Flat(s)
    case Some(c) =>
      && |s| >= 2 && !Flat(s)
      && 0 < c.index < |s|
      && FirstPeak(s, c.index)
      && c.cusum == Abs(Deviation(s, c.index)) > 0.0
      && c.delta == Shift(s, c.index)
  }

  /** The first index that attains the largest absolute cumulative deviation; the clamp never fires. */
  method FindChangepoint(s: seq<real>) returns (r: Option<Changepoint>)
    ensures IsChangepoint(s, r)
  {
    hide Deviation, Flat;
    var n := |s|;
    if n < 2 {
      return None;
    }
    var total := SumOf(s, 0, n);
    var mean := total / n as real;
    assert mean == Mean(s);
    var cusum, peakAbs, peakAt := 0.0, 0.0, 0;
    DeviationsCancel(s);
    for i := 0 to n
      invariant cusum == Deviation(s, i)
      invariant peakAbs >= 0.0 && 0 <= peakAt <= i && (peakAbs > 0.0 ==> peakAt < i)
      invariant forall j :: 0 <= j <= i ==> Abs(Deviation(s, j)) <= peakAbs
      invariant peakAbs > 0.0 ==> peakAbs == Abs(Deviation(s, peakAt + 1))
      invariant peakAbs > 0.0 ==> forall j :: 0 <= j <= peakAt ==> Abs(Deviation(s, j)) < peakAbs
    {
      DeviationStep(s, i);
      cusum := cusum + (s[i] - mean);
      if Abs(cusum) > peakAbs {
        peakAbs := Abs(cusum);
        peakAt := i;
      }
    }
    FlatExactly(s);
    if peakAbs == 0.0 {
      return None;
    }
    assert peakAt + 1 < n;
    var index := if peakAt + 1 > n - 1 then n - 1 else peakAt + 1;
    var before := SumOf(s, 0, index);
    var after := SumOf(s, index, n);
    return Some(Changepoint(index, after / (n - index) as real - before / index as real, peakAbs));
  }

  /** The reported shift and statistic determine each other, and the shift is against the peak. */
  lemma ReportedShift(s: seq<real>, c: Changepoint)
    requires IsChangepoint(s, Some(c))
    ensures Abs(c.delta) * c.index as real * (|s| - c.index) as real == |s| as real * c.cusum
    ensures Deviation(s, c.index) > 0.0 <==> c.delta < 0.0
  {
    hide Deviation, Flat, FirstPeak, Shift;
    CusumIdentity(s, c.index);
    ScaledSign(c.delta, c.index as real, (|s| - c.index) as real, |s| as real, Deviation(s, c.index));
  }

  lemma ScaledSign(d: real, k: real, l: real, n: real, dev: real)
    requires k > 0.0 && l > 0.0 && n > 0.0 && d * k * l == -(n * dev)
    ensures Abs(d) * k * l == n * Abs(dev)
    ensures dev > 0.0 <==> d < 0.0
  {
    assert (-d) * k * l == -(d * k * l);
    if d < 0.0 {
      Positive(-d, k);
      Positive((-d) * k, l);
    } else if d > 0.0 {
      Positive(d, k);
      Positive(d * k, l);
    }
    if dev > 0.0 { Positive(n, dev); }
    if dev < 0.0 { Positive(n, -dev); }
  }

  lemma Positive(x: real, y: real)
    requires x > 0.0 && y > 0.0
    ensures x * y > 0.0
  {
  }

  // ---------------------------------------------------------------- a pure step

  ghost predicate Step(s: seq<real>, p: nat, a: real, b: real) {
    0 < p < |s| && a != b && forall i :: 0 <= i < |s| ==> s[i] == if i < p then a else b
  }

  lemma {:induction false} StepPrefix(s: seq<real>, p: nat, a: real, b: real, n: nat)
    requires Step(s, p, a, b) && n <= |s|
    ensures Prefix(s, n) == if n <= p then n as real * a else p as real * a + (n - p) as real * b
  {
    if n > 0 {
      StepPrefix(s, p, a, b, n - 1);
      assert n as real * a == (n - 1) as real * a + a;
      if n > p {
        assert (n - p) as real * b == (n - 1 - p) as real * b + b;
      }
    }
  }

  lemma StepArithmetic(i: real, p: real, n: real, a: real, b: real, m: real)
    requires n * m == p * a + (n - p) * b
    ensures n * (i * a - i * m) == i * ((n - p) * (a - b))
    ensures n * (p * a + (i - p) * b - i * m) == (n - i) * (p * (a - b))
  {
    assert n * (i * m) == i * (n * m);
    assert n * (i * a - i * m) == n * (i * a) - i * (n * m);
    assert n * (p * a + (i - p) * b - i * m) == n * (p * a) + n * ((i - p) * b) - i * (n * m);
  }

  lemma StepDeviation(s: seq<real>, p: nat, a: real, b: real, i: nat)
    requires Step(s, p, a, b) && i <= |s|
    ensures |s| as real * Deviation(s, i) ==
            if i <= p then i as real * ((|s| - p) as real * (a - b)) else (|s| - i) as real * (p as real * (a - b))
  {
    hide Mean, Prefix;
    StepPrefix(s, p, a, b, |s|);
    StepPrefix(s, p, a, b, i);
    MeanTimesLength(s);
    StepArithmetic(i as real, p as real, |s| as real, a, b, Mean(s));
  }

  lemma ScaledLess(n: real, x: real, y: real, i: real, j: real, w: real)
    requires n > 0.0 && n * x == i * w && n * y == j * w && 0.0 <= i < j && w != 0.0
    ensures Abs(x) < Abs(y)
  {
    var v := Abs(w);
    assert i * v < j * v;
    assert n * Abs(x) == i * v by { AbsScaled(n, x, i, w); }
    assert n * Abs(y) == j * v by { AbsScaled(n, y, j, w); }
    Unscale(n, Abs(x), Abs(y));
  }

  lemma Unscale(n: real, x: real, y: real)
    requires n > 0.0 && n * x < n * y
    ensures x < y
  {
  }

  lemma Rearrange(p: real, q: real, c: real)
    ensures p * (q * c) == q * (p * c)
  {
  }

  lemma AbsScaled(n: real, x: real, i: real, w: real)
    requires n > 0.0 && n * x == i * w && i >= 0.0
    ensures n * Abs(x) == i * Abs(w)
  {
    assert n * (-x) == -(n * x) && i * (-w) == -(i * w);
    if x > 0.0 { Positive(n, x); }
    if x < 0.0 { Positive(n, -x); }
    if w > 0.0 && i > 0.0 { Positive(i, w); }
    if w < 0.0 && i > 0.0 { Positive(i, -w); }
  }

  lemma NonZeroProduct(x: real, y: real)
    requires x != 0.0 && y != 0.0
    ensures x * y != 0.0
  {
  }

  lemma StepPeak(s: seq<real>, p: nat, a: real, b: real, i: nat)
    requires Step(s, p, a, b) && i <= |s| && i != p
    ensures Abs(Deviation(s, i)) < Abs(Deviation(s, p))
  {
    hide Deviation, Abs;
    var n := |s| as real;
    StepDeviation(s, p, a, b, i);
    StepDeviation(s, p, a, b, p);
    if i < p {
      NonZeroProduct((|s| - p) as real, a - b);
      ScaledLess(n, Deviation(s, i), Deviation(s, p), i as real, p as real, (|s| - p) as real * (a - b));
    } else {
      NonZeroProduct(p as real, a - b);
      Rearrange(p as real, (|s| - p) as real, a - b);
      ScaledLess(n, Deviation(s, i), Deviation(s, p), (|s| - i) as real, (|s| - p) as real, p as real * (a - b));
    }
  }

  /** On a clean step the estimator reports the very break and its exact height. */
  lemma StepIsRecovered(s: seq<real>, p: nat, a: real, b: real, r: Option<Changepoint>)
    requires Step(s, p, a, b) && IsChangepoint(s, r)
    ensures r.Some? && r.value.index == p && r.value.delta == b - a
  {
    hide Deviation, Shift;
    assert s[0] != s[p];
    var k := r.value.index;
    if k != p {
      StepPeak(s, p, a, b, k);
    }
    StepShift(s, p, a, b);
  }

  lemma StepShift(s: seq<real>, p: nat, a: real, b: real)
    requires Step(s, p, a, b)
    ensures Shift(s, p) == b - a
  {
    hide Prefix;
    StepPrefix(s, p, a, b, |s|);
    StepPrefix(s, p, a, b, p);
    Quotient(Prefix(s, p), p as real, a);
    Quotient(Prefix(s, |s|) - Prefix(s, p), (|s| - p) as real, b);
  }

  lemma Quotient(q: real, n: real, x: real)
    requires n > 0.0 && q == n * x
    ensures q / n == x
  {
  }
}
