/** Split-conformal calibration and its finite-sample false-alarm bound. */
module Conformal {
  import opened Sorting

  datatype Threshold = NegInfinity | At(value: real) | PosInfinity

  /** `ceil` on reals. */
  function Ceil(x: real): int {
    if x == x.Floor as real then x.Floor else x.Floor + 1
  }

  function Clamp(alpha: real): real {
    if alpha < 0.0 then 0.0 else if alpha > 1.0 then 1.0 else alpha
  }

  // ---------------------------------------------------------------- sorting

  predicate NotAbove(x: real, y: real) {
    x <= y
  }

  /** The sorted copy. */
  function Sorted(s: seq<real>): (t: seq<real>)
    ensures |t| == |s|
  {
    SortBy(NotAbove, s)
  }

  ghost predicate Ascending(s: seq<real>) {
    forall i, j :: 0 <= i < j < |s| ==> s[i] <= s[j]
  }

  // ---------------------------------------------------------------- counting

  ghost function Below(s: seq<real>, x: real): nat {
    if s == [] then 0 else (if s[0] < x then 1 else 0) + Below(s[1..], x)
  }

  ghost function AtMost(s: seq<real>, x: real): nat {
    if s == [] then 0 else (if s[0] <= x then 1 else 0) + AtMost(s[1..], x)
  }

  lemma {:induction false} CountBounds(s: seq<real>, x: real)
    ensures Below(s, x) <= AtMost(s, x) <= |s|
  {
    if s != [] { CountBounds(s[1..], x); }
  }

  lemma {:induction false} CountMonotone(s: seq<real>, x: real, y: real)
    ensures x <= y ==> AtMost(s, x) <= AtMost(s, y) && Below(s, x) <= Below(s, y)
    ensures x < y ==> AtMost(s, x) <= Below(s, y)
  {
    if s != [] { CountMonotone(s[1..], x, y); }
  }

  lemma {:induction false} InsertCounts(x: real, s: seq<real>, y: real)
    ensures Below(Insert(NotAbove, x, s), y) == Below(s, y) + if x < y then 1 else 0
    ensures AtMost(Insert(NotAbove, x, s), y) == AtMost(s, y) + if x <= y then 1 else 0
  {
    if s == [] {
    } else if x <= s[0] {
      assert ([x] + s)[1..] == s;
    } else {
      InsertCounts(x, s[1..], y);
      assert Insert(NotAbove, x, s)[1..] == Insert(NotAbove, x, s[1..]);
    }
  }

  lemma {:induction false} SortedCounts(s: seq<real>, y: real)
    ensures Below(Sorted(s), y) == Below(s, y) && AtMost(Sorted(s), y) == AtMost(s, y)
  {
    if s != [] {
      SortedCounts(s[1..], y);
      InsertCounts(s[0], Sorted(s[1..]), y);
    }
  }

  lemma SortedAscending(s: seq<real>)
    ensures Ascending(Sorted(s))
  {
    SortInOrder(NotAbove, s);
    var t := Sorted(s);
    forall i, j | 0 <= i < j < |t|
      ensures t[i] <= t[j]
    {
      assert NotAbove(t[i], t[j]);
    }
  }

  lemma {:induction false} AscendingPosition(u: seq<real>, k: nat)
    requires Ascending(u) && k < |u|
    ensures Below(u, u[k]) <= k < AtMost(u, u[k])
    decreases k
  {
    if k > 0 {
      AscendingPosition(u[1..], k - 1);
    } else {
      NoneBelow(u, u[0]);
    }
  }

  lemma {:induction false} NoneBelow(u: seq<real>, x: real)
    requires forall i :: 0 <= i < |u| ==> x <= u[i]
    ensures Below(u, x) == 0
  {
    if u != [] { NoneBelow(u[1..], x); }
  }

  /** The `r`-th smallest score, by how many scores lie below it. */
  lemma OrderStatistic(s: seq<real>, r: nat)
    requires 1 <= r <= |s|
    ensures Below(s, Sorted(s)[r - 1]) < r <= AtMost(s, Sorted(s)[r - 1])
  {
    hide Sorted, Below, AtMost;
    SortedAscending(s);
    SortedCounts(s, Sorted(s)[r - 1]);
    AscendingPosition(Sorted(s), r - 1);
  }

  /** A score reaches the `r`-th smallest exactly if at least `r` scores are at most it. */
  lemma ReachesOrderStatistic(s: seq<real>, r: nat, x: real)
    requires 1 <= r <= |s|
    ensures x >= Sorted(s)[r - 1] <==> AtMost(s, x) >= r
    ensures x > Sorted(s)[r - 1] <==> Below(s, x) >= r
  {
    hide Sorted, Below, AtMost;
    var t := Sorted(s)[r - 1];
    OrderStatistic(s, r);
    CountMonotone(s, t, x);
    CountMonotone(s, x, t);
  }

  // ---------------------------------------------------------------- the guard

  function Rank(n: nat, alpha: real): int {
    Ceil((n + 1) as real * (1.0 - Clamp(alpha)))
  }

  function ConformalQuantile(scores: seq<real>, alpha: real): Threshold {
    if scores == [] then PosInfinity
    else
      var rank := Rank(|scores|, alpha);
      if rank <= 0 then NegInfinity
      else if rank > |scores| then PosInfinity
      else At(Sorted(scores)[rank - 1])
  }

  datatype ConformalGuard = ConformalGuard(threshold: Threshold, alpha: real) {
    predicate Flags(score: real) {
      match threshold
      case NegInfinity => true
      case At(t) => score >= t
      case PosInfinity => false
    }

    /** The same decision with a strict comparison. */
    predicate FlagsStrictly(score: real) {
      match threshold
      case NegInfinity => true
      case At(t) => score > t
      case PosInfinity => false
    }
  }

  function Calibrate(calibration: seq<real>, alpha: real): ConformalGuard {
    ConformalGuard(ConformalQuantile(calibration, alpha), Clamp(alpha))
  }

  // ---------------------------------------------------------------- leave one out

  function Others(s: seq<real>, i: nat): seq<real>
    requires i < |s|
  {
    s[..i] + s[i + 1..]
  }

  lemma {:induction false} CountsAppend(a: seq<real>, b: seq<real>, x: real)
    ensures Below(a + b, x) == Below(a, x) + Below(b, x)
    ensures AtMost(a + b, x) == AtMost(a, x) + AtMost(b, x)
  {
    if a == [] {
      assert a + b == b;
    } else {
      assert (a + b)[1..] == a[1..] + b;
      CountsAppend(a[1..], b, x);
    }
  }

  lemma OthersCounts(s: seq<real>, i: nat)
    requires i < |s|
    ensures Below(Others(s, i), s[i]) == Below(s, s[i])
    ensures AtMost(Others(s, i), s[i]) == AtMost(s, s[i]) - 1
  {
    hide Below, AtMost;
    var x := s[i];
    assert s == s[..i] + ([x] + s[i + 1..]);
    CountsAppend(s[..i], [x] + s[i + 1..], x);
    CountsAppend([x], s[i + 1..], x);
    CountsAppend(s[..i], s[i + 1..], x);
    CountsOne(x);
  }

  lemma CountsOne(x: real)
    ensures Below([x], x) == 0 && AtMost([x], x) == 1
  {
  }

  /** How many of the scores are flagged by a guard calibrated on all the others. */
  ghost function FalseAlarms(s: seq<real>, alpha: real, n: nat): nat
    requires n <= |s|
  {
    if n == 0 then 0
    else FalseAlarms(s, alpha, n - 1) + if Calibrate(Others(s, n - 1), alpha).Flags(s[n - 1]) then 1 else 0
  }

  ghost function StrictFalseAlarms(s: seq<real>, alpha: real, n: nat): nat
    requires n <= |s|
  {
    if n == 0 then 0
    else StrictFalseAlarms(s, alpha, n - 1) + if Calibrate(Others(s, n - 1), alpha).FlagsStrictly(s[n - 1]) then 1 else 0
  }

  /** A proper rank: neither "flag everything" nor "too few samples". */
  ghost predicate ProperRank(s: seq<real>, r: int) {
    1 <= r < |s|
  }

  lemma FlaggedMeans(s: seq<real>, alpha: real, i: nat)
    requires i < |s|
    ensures var r := Rank(|s| - 1, alpha);
            && (ProperRank(s, r) ==>
                  && (Calibrate(Others(s, i), alpha).Flags(s[i]) <==> s[i] >= Sorted(s)[r])
                  && (Calibrate(Others(s, i), alpha).FlagsStrictly(s[i]) <==> s[i] > Sorted(s)[r - 1]))
  {
    hide Sorted, Below, AtMost, Rank;
    var r := Rank(|s| - 1, alpha);
    if ProperRank(s, r) {
      ReachesOrderStatistic(Others(s, i), r, s[i]);
      ReachesOrderStatistic(s, r + 1, s[i]);
      ReachesOrderStatistic(s, r, s[i]);
      OthersCounts(s, i);
    }
  }

  lemma {:induction false} CountFlagged(s: seq<real>, alpha: real, n: nat)
    requires s != [] && n <= |s| && ProperRank(s, Rank(|s| - 1, alpha))
    ensures var r := Rank(|s| - 1, alpha);
            && FalseAlarms(s, alpha, n) == n - Below(s[..n], Sorted(s)[r])
            && StrictFalseAlarms(s, alpha, n) == n - AtMost(s[..n], Sorted(s)[r - 1])
  {
    hide Sorted, Rank, Calibrate;
    if n > 0 {
      var r := Rank(|s| - 1, alpha);
      CountFlagged(s, alpha, n - 1);
      FlaggedMeans(s, alpha, n - 1);
      assert s[..n] == s[..n - 1] + [s[n - 1]];
      CountsAppend(s[..n - 1], [s[n - 1]], Sorted(s)[r]);
      CountsAppend(s[..n - 1], [s[n - 1]], Sorted(s)[r - 1]);
    }
  }

  lemma {:induction false} CountTrivial(s: seq<real>, alpha: real, n: nat)
    requires s != [] && n <= |s| && !ProperRank(s, Rank(|s| - 1, alpha))
    ensures FalseAlarms(s, alpha, n) == StrictFalseAlarms(s, alpha, n)
    ensures FalseAlarms(s, alpha, n) == if Rank(|s| - 1, alpha) <= 0 && |s| > 1 then n else 0
  {
    hide Sorted, Rank;
    if n > 0 {
      CountTrivial(s, alpha, n - 1);
    }
  }

  lemma Scaled(n: real, f: real)
    requires n > 0.0 && 0.0 <= f <= 1.0
    ensures 0.0 <= n * f <= n
    ensures f > 0.0 ==> n * f > 0.0
    ensures n - n * f == (1.0 - f) * n
  {
  }

  /** `n - rank` is the whole part of `alpha * n`. */
  lemma RankBounds(s: seq<real>, alpha: real)
    requires s != []
    ensures var r, n, budget := Rank(|s| - 1, alpha), |s| as real, Clamp(alpha) * |s| as real;
            && 0 <= r <= |s|
            && n - r as real <= budget < n - r as real + 1.0
            && 0.0 <= budget
  {
    var n, f := |s| as real, 1.0 - Clamp(alpha);
    Scaled(n, f);
    var x := n * f;
    assert x <= Ceil(x) as real < x + 1.0;
    assert Rank(|s| - 1, alpha) == Ceil(x);
  }

  /** With a strict comparison at most the fraction `alpha` of the scores raises an alarm, ties or not. */
  lemma StrictAlarmBound(s: seq<real>, alpha: real)
    requires s != []
    ensures StrictFalseAlarms(s, alpha, |s|) as real <= Clamp(alpha) * |s| as real
  {
    hide Sorted, Below, AtMost, Clamp, Rank, StrictFalseAlarms, FalseAlarms;
    var r := Rank(|s| - 1, alpha);
    var budget := Clamp(alpha) * |s| as real;
    RankBounds(s, alpha);
    if ProperRank(s, r) {
      CountFlagged(s, alpha, |s|);
      assert s[..|s|] == s;
      OrderStatistic(s, r);
    } else {
      CountTrivial(s, alpha, |s|);
    }
  }

  /** No tie crosses the rank: the `r`-th and the next smallest of all the scores differ. */
  ghost predicate NoTieAtRank(s: seq<real>, r: int) {
    ProperRank(s, r) ==> Sorted(s)[r - 1] < Sorted(s)[r]
  }

  /**
   * The false-alarm bound of the guard as it is coded, with `>=`: at most the fraction `alpha`
   * of exchangeable scores is flagged if and only if no tie crosses the rank.
   */
  lemma AlarmBoundExactly(s: seq<real>, alpha: real)
    requires s != []
    ensures FalseAlarms(s, alpha, |s|) as real <= Clamp(alpha) * |s| as real
            <==> NoTieAtRank(s, Rank(|s| - 1, alpha))
  {
    hide Sorted, Below, AtMost, Clamp, Rank, FalseAlarms, StrictFalseAlarms;
    var r := Rank(|s| - 1, alpha);
    var budget := Clamp(alpha) * |s| as real;
    RankBounds(s, alpha);
    if ProperRank(s, r) {
      CountFlagged(s, alpha, |s|);
      assert s[..|s|] == s;
      OrderStatistic(s, r + 1);
      ReachesOrderStatistic(s, r, Sorted(s)[r]);
    } else {
      CountTrivial(s, alpha, |s|);
    }
  }

  lemma {:induction false} DistinctRanks(s: seq<real>, x: real)
    requires Distinct(s)
    ensures AtMost(s, x) <= Below(s, x) + 1
    ensures x !in s ==> AtMost(s, x) == Below(s, x)
  {
    if s != [] {
      DistinctRanks(s[1..], x);
      if s[0] == x {
        assert x !in s[1..];
      }
    }
  }

  /** Hence for pairwise distinct scores the promised bound always holds. */
  lemma AlarmBoundForDistinctScores(s: seq<real>, alpha: real)
    requires s != [] && Distinct(s)
    ensures FalseAlarms(s, alpha, |s|) as real <= Clamp(alpha) * |s| as real
  {
    hide Sorted, Below, AtMost, Clamp, Rank, FalseAlarms;
    var r := Rank(|s| - 1, alpha);
    AlarmBoundExactly(s, alpha);
    if ProperRank(s, r) {
      OrderStatistic(s, r + 1);
      DistinctRanks(s, Sorted(s)[r]);
      ReachesOrderStatistic(s, r, Sorted(s)[r]);
    }
  }

  /** A tie at the rank does break it: four equal scores at one half are all flagged. */
  lemma TiesBreakTheBound()
    ensures FalseAlarms([1.0, 1.0, 1.0, 1.0], 0.5, 4) == 4
  {
    hide Calibrate;
    var s := [1.0, 1.0, 1.0, 1.0];
    assert Rank(3, 0.5) == 2;
    assert Sorted(s) == s by { SortedOfEqual(); }
    FlaggedMeans(s, 0.5, 0);
    FlaggedMeans(s, 0.5, 1);
    FlaggedMeans(s, 0.5, 2);
    FlaggedMeans(s, 0.5, 3);
    assert FalseAlarms(s, 0.5, 2) == 2;
  }

  lemma SortedOfEqual()
    ensures Sorted([1.0, 1.0, 1.0, 1.0]) == [1.0, 1.0, 1.0, 1.0]
  {
    assert Sorted([1.0]) == [1.0];
    assert [1.0, 1.0][1..] == [1.0];
    assert Sorted([1.0, 1.0]) == [1.0, 1.0];
    assert [1.0, 1.0, 1.0][1..] == [1.0, 1.0];
    assert Sorted([1.0, 1.0, 1.0]) == [1.0, 1.0, 1.0];
    assert [1.0, 1.0, 1.0, 1.0][1..] == [1.0, 1.0, 1.0];
  }
}
