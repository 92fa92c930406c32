/** Dynamic time warping and longest common subsequence: the tables, the traceback, and what they optimize. */
module Dtw {
  import opened Numbers
  import opened Results

  /** A cost, or the padding infinity. */
  datatype Cost = Finite(value: real) | Infinite

  predicate CostLeq(x: Cost, y: Cost) {
    y.Infinite? || (x.Finite? && x.value <= y.value)
  }

  function CostMin(x: Cost, y: Cost): Cost {
    if CostLeq(x, y) then x else y
  }

  function Plus(d: real, c: Cost): Cost {
    match c
    case Finite(v) => Finite(d + v)
    case Infinite => Infinite
  }

  function Local(a: seq<real>, b: seq<real>, i: nat, j: nat): real
    requires i < |a| && j < |b|
  {
    Abs(a[i] - b[j])
  }

  /** The padded table: the cost of aligning the first `i` with the first `j` samples. */
  function Table(a: seq<real>, b: seq<real>, i: nat, j: nat): Cost
    requires i <= |a| && j <= |b|
    decreases i + j
  {
    if i == 0 && j == 0 then Finite(0.0)
    else if i == 0 || j == 0 then Infinite
    else
      Plus(Local(a, b, i - 1, j - 1),
           CostMin(CostMin(Table(a, b, i - 1, j - 1), Table(a, b, i - 1, j)), Table(a, b, i, j - 1)))
  }

  lemma TableEntry(a: seq<real>, b: seq<real>, i: nat, j: nat)
    requires 0 < i <= |a| && 0 < j <= |b|
    ensures Table(a, b, i, j) ==
            Plus(Local(a, b, i - 1, j - 1),
                 CostMin(CostMin(Table(a, b, i - 1, j - 1), Table(a, b, i - 1, j)), Table(a, b, i, j - 1)))
  {
  }

  // ---------------------------------------------------------------- warping paths

  type Pair = (nat, nat)

  /** One step forward in one or both series. */
  predicate Follows(p: Pair, q: Pair) {
    q == (p.0 + 1, p.1 + 1) || q == (p.0 + 1, p.1) || q == (p.0, p.1 + 1)
  }

  /** A monotone contiguous alignment of the first `i` with the first `j` samples. */
  ghost predicate IsWarp(path: seq<Pair>, i: nat, j: nat) {
    && path != []
    && path[0] == (0, 0)
    && i > 0 && j > 0 && path[|path| - 1] == (i - 1, j - 1)
    && forall t :: 0 <= t < |path| - 1 ==> Follows(path[t], path[t + 1])
  }

  ghost predicate Within(path: seq<Pair>, n: nat, m: nat) {
    forall t :: 0 <= t < |path| ==> path[t].0 < n && path[t].1 < m
  }

  lemma {:induction false} WarpWithin(path: seq<Pair>, i: nat, j: nat)
    requires IsWarp(path, i, j)
    ensures Within(path, i, j)
    decreases |path|
  {
    if |path| > 1 {
      var n := |path| - 1;
      var p := path[n - 1];
      assert Follows(p, path[n]);
      WarpPrefix(path, i, j);
      WarpWithin(path[..n], p.0 + 1, p.1 + 1);
      forall t | 0 <= t < |path|
        ensures path[t].0 < i && path[t].1 < j
      {
        if t < n { assert path[t] == path[..n][t]; }
      }
    }
  }

  lemma WarpPrefix(path: seq<Pair>, i: nat, j: nat)
    requires IsWarp(path, i, j) && |path| > 1
    ensures var p := path[|path| - 2]; IsWarp(path[..|path| - 1], p.0 + 1, p.1 + 1)
  {
    var n := |path| - 1;
    forall t | 0 <= t < n - 1
      ensures Follows(path[..n][t], path[..n][t + 1])
    {
      assert Follows(path[t], path[t + 1]);
    }
  }

  ghost function Total(a: seq<real>, b: seq<real>, path: seq<Pair>): real
    requires Within(path, |a|, |b|)
  {
    if path == [] then 0.0
    else
      var n := |path| - 1;
      Total(a, b, path[..n]) + Local(a, b, path[n].0, path[n].1)
  }

  /** No alignment is cheaper than the table. */
  lemma {:induction false} TableIsLowerBound(a: seq<real>, b: seq<real>, path: seq<Pair>, i: nat, j: nat)
    requires i <= |a| && j <= |b| && IsWarp(path, i, j)
    ensures Within(path, |a|, |b|) && CostLeq(Table(a, b, i, j), Finite(Total(a, b, path)))
    decreases |path|
  {
    WarpWithin(path, i, j);
    var n := |path| - 1;
    if n > 0 {
      var p := path[n - 1];
      assert Follows(p, path[n]);
      WarpPrefix(path, i, j);
      TableIsLowerBound(a, b, path[..n], p.0 + 1, p.1 + 1);
    } else {
      assert path[..0] == [];
    }
  }

  /** Every proper entry is finite and not negative. */
  lemma {:induction false} TableFinite(a: seq<real>, b: seq<real>, i: nat, j: nat)
    requires 0 < i <= |a| && 0 < j <= |b|
    ensures Table(a, b, i, j).Finite? && Table(a, b, i, j).value >= 0.0
    decreases i + j
  {
    if i > 1 { TableFinite(a, b, i - 1, j); }
    if j > 1 { TableFinite(a, b, i, j - 1); }
    if i > 1 && j > 1 { TableFinite(a, b, i - 1, j - 1); }
  }

  // ---------------------------------------------------------------- traceback

  /** Where the traceback goes from (i, j): diagonal first, then up, then left. */
  function StepBack(a: seq<real>, b: seq<real>, i: nat, j: nat): Pair
    requires 0 < i <= |a| && 0 < j <= |b|
  {
    var diag, up, left := Table(a, b, i - 1, j - 1), Table(a, b, i - 1, j), Table(a, b, i, j - 1);
    if CostLeq(diag, up) && CostLeq(diag, left) then (i - 1, j - 1)
    else if CostLeq(up, left) then (i - 1, j)
    else (i, j - 1)
  }

  function Traced(a: seq<real>, b: seq<real>, i: nat, j: nat): seq<Pair>
    requires i <= |a| && j <= |b|
    decreases i + j
  {
    if i == 0 || j == 0 then []
    else
      var p := StepBack(a, b, i, j);
      Traced(a, b, p.0, p.1) + [(i - 1, j - 1)]
  }

  /** The step back lands on a cheapest predecessor, off the padding except at the origin. */
  lemma StepBackIsCheapest(a: seq<real>, b: seq<real>, i: nat, j: nat)
    requires 0 < i <= |a| && 0 < j <= |b|
    ensures var p := StepBack(a, b, i, j);
            && Table(a, b, i, j) == Plus(Local(a, b, i - 1, j - 1), Table(a, b, p.0, p.1))
            && (p == (0, 0) || (p.0 > 0 && p.1 > 0))
            && (p == (0, 0) <==> i == 1 && j == 1)
  {
    if i > 1 { TableFinite(a, b, i - 1, j); }
    if j > 1 { TableFinite(a, b, i, j - 1); }
    if i > 1 && j > 1 { TableFinite(a, b, i - 1, j - 1); }
  }

  /** The traceback is an alignment whose cost is the table entry. */
  lemma {:induction false} TracedIsOptimal(a: seq<real>, b: seq<real>, i: nat, j: nat)
    requires 0 < i <= |a| && 0 < j <= |b|
    ensures IsWarp(Traced(a, b, i, j), i, j) && Within(Traced(a, b, i, j), |a|, |b|)
    ensures Table(a, b, i, j) == Finite(Total(a, b, Traced(a, b, i, j)))
    decreases i + j
  {
    hide Table, StepBack;
    var p := StepBack(a, b, i, j);
    StepBackIsCheapest(a, b, i, j);
    StepBackIsNear(a, b, i, j);
    var path := Traced(a, b, i, j);
    var n := |path| - 1;
    assert path[..n] == Traced(a, b, p.0, p.1);
    if p == (0, 0) {
      assert path == [(0, 0)];
      assert Table(a, b, 0, 0) == Finite(0.0) by { OriginIsFree(a, b); }
    } else {
      TracedIsOptimal(a, b, p.0, p.1);
      forall t | 0 <= t < n
        ensures Follows(path[t], path[t + 1])
      {
        if t < n - 1 { assert Follows(path[..n][t], path[..n][t + 1]); }
      }
      WarpWithin(path, i, j);
    }
  }

  lemma OriginIsFree(a: seq<real>, b: seq<real>)
    ensures Table(a, b, 0, 0) == Finite(0.0)
  {
  }

  lemma StepBackIsNear(a: seq<real>, b: seq<real>, i: nat, j: nat)
    requires 0 < i <= |a| && 0 < j <= |b|
    ensures var p := StepBack(a, b, i, j); p == (i - 1, j - 1) || p == (i - 1, j) || p == (i, j - 1)
  {
  }

  /** The distance of two series: the least total cost over all alignments. */
  ghost predicate IsDistance(a: seq<real>, b: seq<real>, d: real) {
    && (exists path :: IsWarp(path, |a|, |b|) && Within(path, |a|, |b|) && Total(a, b, path) == d)
    && (forall path :: IsWarp(path, |a|, |b|) && Within(path, |a|, |b|) ==> d <= Total(a, b, path))
  }

  lemma TableIsDistance(a: seq<real>, b: seq<real>)
    requires a != [] && b != []
    ensures Table(a, b, |a|, |b|).Finite? && IsDistance(a, b, Table(a, b, |a|, |b|).value)
  {
    TracedIsOptimal(a, b, |a|, |b|);
    var path := Traced(a, b, |a|, |b|);
    assert IsWarp(path, |a|, |b|);
    forall other | IsWarp(other, |a|, |b|) && Within(other, |a|, |b|)
      ensures Table(a, b, |a|, |b|).value <= Total(a, b, other)
    {
      TableIsLowerBound(a, b, other, |a|, |b|);
    }
  }

  // ---------------------------------------------------------------- identical series

  lemma {:induction false} DiagonalIsFree(a: seq<real>, i: nat)
    requires i <= |a|
    ensures Table(a, a, i, i) == Finite(0.0)
  {
    if i > 0 {
      DiagonalIsFree(a, i - 1);
      TableFinite(a, a, i, i);
      if i > 1 { TableFinite(a, a, i - 1, i); TableFinite(a, a, i, i - 1); }
    }
  }

  lemma DiagonalStep(a: seq<real>, i: nat)
    requires 0 < i <= |a|
    ensures StepBack(a, a, i, i) == (i - 1, i - 1)
  {
    hide Table;
    DiagonalIsFree(a, i - 1);
    if i > 1 {
      TableFinite(a, a, i - 1, i);
      TableFinite(a, a, i, i - 1);
    } else {
      PaddingIsInfinite(a, a, 1);
    }
  }

  lemma PaddingIsInfinite(a: seq<real>, b: seq<real>, x: nat)
    requires x > 0
    ensures x <= |a| ==> Table(a, b, x, 0) == Infinite
    ensures x <= |b| ==> Table(a, b, 0, x) == Infinite
  {
  }

  /** A series aligned with itself: zero cost, and the tie-break keeps to the diagonal. */
  lemma {:induction false} IdenticalIsDiagonal(a: seq<real>, i: nat)
    requires i <= |a|
    ensures Table(a, a, i, i) == Finite(0.0)
    ensures Traced(a, a, i, i) == seq(i, t requires 0 <= t < i => (t, t))
  {
    hide Table, StepBack;
    DiagonalIsFree(a, i);
    if i > 0 {
      IdenticalIsDiagonal(a, i - 1);
      DiagonalStep(a, i);
    }
  }

  // ---------------------------------------------------------------- the algorithm

  datatype Alignment = Alignment(distance: Cost, path: seq<Pair>, divergence: Option<nat>)

  /** The pair of samples differs by more than the threshold. */
  predicate Exceeds(a: seq<real>, b: seq<real>, p: Pair, threshold: Cost)
    requires p.0 < |a| && p.1 < |b|
  {
    threshold.Finite? && Local(a, b, p.0, p.1) > threshold.value
  }

  method FillTable(a: seq<real>, b: seq<real>) returns (cost: array2<Cost>)
    ensures fresh(cost) && cost.Length0 == |a| + 1 && cost.Length1 == |b| + 1
    ensures forall x, y :: 0 <= x <= |a| && 0 <= y <= |b| ==> cost[x, y] == Table(a, b, x, y)
  {
    hide Table, CostMin, Plus, Local;
    var n, m := |a|, |b|;
    OriginIsFree(a, b);
    forall x | x > 0
      ensures x <= n ==> Table(a, b, x, 0) == Infinite
      ensures x <= m ==> Table(a, b, 0, x) == Infinite
    {
      PaddingIsInfinite(a, b, x);
    }
    cost := new Cost[n + 1, m + 1]((x, y) => Infinite);
    cost[0, 0] := Finite(0.0);
    for i := 1 to n + 1
      invariant forall x, y :: 0 <= x < i && 0 <= y <= m ==> cost[x, y] == Table(a, b, x, y)
      invariant forall x :: i <= x <= n ==> cost[x, 0] == Infinite
    {
      for j := 1 to m + 1
        invariant forall x, y :: 0 <= x < i && 0 <= y <= m ==> cost[x, y] == Table(a, b, x, y)
        invariant forall y :: 0 <= y < j ==> cost[i, y] == Table(a, b, i, y)
        invariant forall x :: i < x <= n ==> cost[x, 0] == Infinite
      {
        TableEntry(a, b, i, j);
        var d := Local(a, b, i - 1, j - 1);
        var best := CostMin(CostMin(cost[i - 1, j - 1], cost[i - 1, j]), cost[i, j - 1]);
        cost[i, j] := Plus(d, best);
      }
    }
  }

  method TraceBack(a: seq<real>, b: seq<real>, cost: array2<Cost>) returns (path: seq<Pair>)
    requires cost.Length0 == |a| + 1 && cost.Length1 == |b| + 1
    requires forall x, y :: 0 <= x <= |a| && 0 <= y <= |b| ==> cost[x, y] == Table(a, b, x, y)
    ensures path == Traced(a, b, |a|, |b|)
  {
    hide Table;
    var i: nat, j: nat := |a|, |b|;
    var pushed: seq<Pair> := [];
    while i > 0 && j > 0
      invariant i <= |a| && j <= |b|
      invariant Traced(a, b, |a|, |b|) == Traced(a, b, i, j) + Reversed(pushed)
      decreases i + j
    {
      ghost var before := pushed;
      pushed := pushed + [(i - 1, j - 1)];
      ReversedSnoc(before, (i - 1, j - 1));
      var diag, up, left := cost[i - 1, j - 1], cost[i - 1, j], cost[i, j - 1];
      ghost var p := StepBack(a, b, i, j);
      assert Traced(a, b, i, j) + Reversed(before) == Traced(a, b, p.0, p.1) + Reversed(pushed);
      if CostLeq(diag, up) && CostLeq(diag, left) {
        i, j := i - 1, j - 1;
      } else if CostLeq(up, left) {
        i := i - 1;
      } else {
        j := j - 1;
      }
    }
    path := Reversed(pushed);
    assert [] + path == path;
  }

  function Reversed<T>(s: seq<T>): seq<T> {
    if s == [] then [] else Reversed(s[1..]) + [s[0]]
  }

  lemma {:induction false} ReversedSnoc<T>(s: seq<T>, x: T)
    ensures Reversed(s + [x]) == [x] + Reversed(s)
  {
    if s == [] {
      assert s + [x] == [x];
    } else {
      assert (s + [x])[1..] == s[1..] + [x];
      ReversedSnoc(s[1..], x);
    }
  }

  /** Distance, path and the first aligned pair past the threshold. */
  method Align(a: seq<real>, b: seq<real>, threshold: Cost) returns (r: Alignment)
    ensures a == [] || b == [] ==>
              r == Alignment(if a == b then Finite(0.0) else Infinite, [], None)
    ensures a != [] && b != [] ==>
              && r.distance.Finite? && IsDistance(a, b, r.distance.value)
              && IsWarp(r.path, |a|, |b|) && Within(r.path, |a|, |b|)
              && Total(a, b, r.path) == r.distance.value
              && r.path == Traced(a, b, |a|, |b|)
    ensures a == b ==> r.distance == Finite(0.0) && r.path == seq(|a|, t requires 0 <= t < |a| => (t, t))
    ensures Within(r.path, |a|, |b|)
    ensures r.divergence.Some? ==>
              && r.divergence.value < |r.path|
              && Exceeds(a, b, r.path[r.divergence.value], threshold)
              && forall t :: 0 <= t < r.divergence.value ==> !Exceeds(a, b, r.path[t], threshold)
    ensures r.divergence.None? ==> forall t :: 0 <= t < |r.path| ==> !Exceeds(a, b, r.path[t], threshold)
  {
    hide Table, Traced, IsWarp, IsDistance, Total;
    var n, m := |a|, |b|;
    if n == 0 || m == 0 {
      return Alignment(if n == m then Finite(0.0) else Infinite, [], None);
    }
    var cost := FillTable(a, b);
    var path := TraceBack(a, b, cost);
    TableIsDistance(a, b);
    TracedIsOptimal(a, b, n, m);
    if a == b { IdenticalIsDiagonal(a, n); }
    for t := 0 to |path|
      invariant forall u :: 0 <= u < t ==> !Exceeds(a, b, path[u], threshold)
    {
      if Exceeds(a, b, path[t], threshold) {
        return Alignment(cost[n, m], path, Some(t));
      }
    }
    return Alignment(cost[n, m], path, None);
  }

  // ---------------------------------------------------------------- longest common subsequence

  function LcsTable<T(==)>(a: seq<T>, b: seq<T>, i: nat, j: nat): nat
    requires i <= |a| && j <= |b|
    decreases i + j
  {
    if i == 0 || j == 0 then 0
    else if a[i - 1] == b[j - 1] then LcsTable(a, b, i - 1, j - 1) + 1
    else
      var up, left := LcsTable(a, b, i - 1, j), LcsTable(a, b, i, j - 1);
      if up >= left then up else left
  }

  /** Index pairs of a common subsequence of the first `i` and first `j` labels. */
  ghost predicate Matching<T>(a: seq<T>, b: seq<T>, s: seq<Pair>, i: nat, j: nat)
    requires i <= |a| && j <= |b|
  {
    && (forall t :: 0 <= t < |s| ==> s[t].0 < i && s[t].1 < j && a[s[t].0] == b[s[t].1])
    && (forall t, u :: 0 <= t < u < |s| ==> s[t].0 < s[u].0 && s[t].1 < s[u].1)
  }

  lemma {:induction false} NoLongerMatching<T>(a: seq<T>, b: seq<T>, s: seq<Pair>, i: nat, j: nat)
    requires i <= |a| && j <= |b| && Matching(a, b, s, i, j)
    ensures |s| <= LcsTable(a, b, i, j)
    decreases i + j
  {
    if s != [] {
      var n := |s| - 1;
      var last := s[n];
      if a[i - 1] == b[j - 1] {
        NoLongerMatching(a, b, s[..n], i - 1, j - 1);
      } else if last.0 < i - 1 {
        NoLongerMatching(a, b, s, i - 1, j);
      } else {
        NoLongerMatching(a, b, s, i, j - 1);
      }
    }
  }

  lemma {:induction false} LongestMatching<T>(a: seq<T>, b: seq<T>, i: nat, j: nat) returns (s: seq<Pair>)
    requires i <= |a| && j <= |b|
    ensures Matching(a, b, s, i, j) && |s| == LcsTable(a, b, i, j)
    decreases i + j
  {
    if i == 0 || j == 0 {
      s := [];
    } else if a[i - 1] == b[j - 1] {
      s := LongestMatching(a, b, i - 1, j - 1);
      s := s + [(i - 1, j - 1)];
    } else if LcsTable(a, b, i - 1, j) >= LcsTable(a, b, i, j - 1) {
      s := LongestMatching(a, b, i - 1, j);
    } else {
      s := LongestMatching(a, b, i, j - 1);
    }
  }

  lemma LcsEntry<T>(a: seq<T>, b: seq<T>, i: nat, j: nat)
    requires i <= |a| && j <= |b|
    ensures i == 0 || j == 0 ==> LcsTable(a, b, i, j) == 0
    ensures i > 0 && j > 0 ==>
              var up, left := LcsTable(a, b, i - 1, j), LcsTable(a, b, i, j - 1);
              LcsTable(a, b, i, j) ==
              if a[i - 1] == b[j - 1] then LcsTable(a, b, i - 1, j - 1) + 1 else if up >= left then up else left
  {
  }

  method FillLcs<T(==)>(a: seq<T>, b: seq<T>) returns (dp: array2<nat>)
    ensures fresh(dp) && dp.Length0 == |a| + 1 && dp.Length1 == |b| + 1
    ensures forall x, y :: 0 <= x <= |a| && 0 <= y <= |b| ==> dp[x, y] == LcsTable(a, b, x, y)
  {
    hide LcsTable;
    var n, m := |a|, |b|;
    forall x | x >= 0
      ensures x <= n ==> LcsTable(a, b, x, 0) == 0
      ensures x <= m ==> LcsTable(a, b, 0, x) == 0
    {
      if x <= n { LcsEntry(a, b, x, 0); }
      if x <= m { LcsEntry(a, b, 0, x); }
    }
    dp := new nat[n + 1, m + 1]((x, y) => 0);
    for i := 1 to n + 1
      invariant forall x, y :: 0 <= x < i && 0 <= y <= m ==> dp[x, y] == LcsTable(a, b, x, y)
      invariant forall x :: i <= x <= n ==> dp[x, 0] == 0
    {
      for j := 1 to m + 1
        invariant forall x, y :: 0 <= x < i && 0 <= y <= m ==> dp[x, y] == LcsTable(a, b, x, y)
        invariant forall y :: 0 <= y < j ==> dp[i, y] == LcsTable(a, b, i, y)
        invariant forall x :: i < x <= n ==> dp[x, 0] == 0
      {
        LcsEntry(a, b, i, j);
        dp[i, j] :=
          if a[i - 1] == b[j - 1] then dp[i - 1, j - 1] + 1
          else if dp[i - 1, j] >= dp[i, j - 1] then dp[i - 1, j]
          else dp[i, j - 1];
      }
    }
  }

  /** The length of the longest common subsequence, exactly. */
  method LcsLen<T(==)>(a: seq<T>, b: seq<T>) returns (len: nat)
    ensures exists s :: Matching(a, b, s, |a|, |b|) && |s| == len
    ensures forall s :: Matching(a, b, s, |a|, |b|) ==> |s| <= len
  {
    hide LcsTable, Matching;
    var n, m := |a|, |b|;
    ghost var best := LongestMatching(a, b, n, m);
    forall s | Matching(a, b, s, n, m)
      ensures |s| <= LcsTable(a, b, n, m)
    {
      NoLongerMatching(a, b, s, n, m);
    }
    if n == 0 || m == 0 {
      LcsEntry(a, b, n, m);
      return 0;
    }
    var dp := FillLcs(a, b);
    return dp[n, m];
  }
}
