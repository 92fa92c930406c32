/** The standard library's stable sort by a comparison. */
module Sorting {

  function Insert<T>(before: (T, T) -> bool, x: T, s: seq<T>): (r: seq<T>)
    ensures |r| == |s| + 1
  {
    if s == [] || before(x, s[0]) then [x] + s else [s[0]] + Insert(before, x, s[1..])
  }

  function SortBy<T>(before: (T, T) -> bool, s: seq<T>): (r: seq<T>)
    ensures |r| == |s|
  {
    if s == [] then [] else Insert(before, s[0], SortBy(before, s[1..]))
  }

  ghost predicate InOrder<T>(before: (T, T) -> bool, s: seq<T>) {
    forall i, j :: 0 <= i < j < |s| ==> before(s[i], s[j])
  }

  ghost predicate TotalOrder<T(!new)>(before: (T, T) -> bool) {
    && (forall a, b :: before(a, b) || before(b, a))
    && (forall a, b, c :: before(a, b) && before(b, c) ==> before(a, c))
  }

  lemma {:induction false} InsertMembers<T>(before: (T, T) -> bool, x: T, s: seq<T>)
    ensures multiset(Insert(before, x, s)) == multiset(s) + multiset{x}
  {
    if s == [] || before(x, s[0]) {
      assert multiset([x] + s) == multiset(s) + multiset{x};
    } else {
      InsertMembers(before, x, s[1..]);
      assert s == [s[0]] + s[1..];
      assert multiset([s[0]] + Insert(before, x, s[1..])) == multiset{s[0]} + multiset(Insert(before, x, s[1..]));
    }
  }

  /** Sorting keeps every element with its multiplicity. */
  lemma {:induction false} SortMembers<T>(before: (T, T) -> bool, s: seq<T>)
    ensures multiset(SortBy(before, s)) == multiset(s)
  {
    if s != [] {
      SortMembers(before, s[1..]);
      InsertMembers(before, s[0], SortBy(before, s[1..]));
      assert s == [s[0]] + s[1..];
    }
  }

  lemma SortElements<T>(before: (T, T) -> bool, s: seq<T>, x: T)
    ensures x in SortBy(before, s) <==> x in s
  {
    SortMembers(before, s);
    assert x in multiset(SortBy(before, s)) <==> x in multiset(s);
  }

  lemma {:induction false} InsertInOrder<T(!new)>(before: (T, T) -> bool, x: T, s: seq<T>)
    requires TotalOrder(before) && InOrder(before, s)
    ensures InOrder(before, Insert(before, x, s))
  {
    if s == [] {
    } else if before(x, s[0]) {
      assert forall j :: 0 < j < |s| ==> before(s[0], s[j]);
    } else {
      InsertInOrder(before, x, s[1..]);
      InsertMembers(before, x, s[1..]);
      var rest := Insert(before, x, s[1..]);
      forall j | 0 <= j < |rest|
        ensures before(s[0], rest[j])
      {
        assert rest[j] in multiset(rest);
        if rest[j] != x {
          assert rest[j] in multiset(s[1..]);
          var k :| 0 <= k < |s[1..]| && s[1..][k] == rest[j];
          assert before(s[0], s[k + 1]);
        }
      }
    }
  }

  /** Sorting puts the elements in order. */
  lemma {:induction false} SortInOrder<T(!new)>(before: (T, T) -> bool, s: seq<T>)
    requires TotalOrder(before)
    ensures InOrder(before, SortBy(before, s))
  {
    if s != [] {
      SortInOrder(before, s[1..]);
      InsertInOrder(before, s[0], SortBy(before, s[1..]));
    }
  }

  // ---------------------------------------------------------------- sequences without repeats

  ghost predicate Distinct<T>(s: seq<T>) {
    forall i, j :: 0 <= i < j < |s| ==> s[i] != s[j]
  }

  lemma {:induction false} DistinctCounts<T>(s: seq<T>)
    ensures Distinct(s) <==> forall x :: x in multiset(s) ==> multiset(s)[x] == 1
  {
    if s != [] {
      var n := |s| - 1;
      DistinctCounts(s[..n]);
      assert s == s[..n] + [s[n]];
      assert multiset(s) == multiset(s[..n]) + multiset{s[n]};
      DistinctAppend(s[..n], s[n]);
      OnceAppend(multiset(s[..n]), s[n]);
      assert s[n] in multiset(s[..n]) <==> s[n] in s[..n];
    }
  }

  lemma OnceAppend<T>(m: multiset<T>, x: T)
    ensures (forall y :: y in m + multiset{x} ==> (m + multiset{x})[y] == 1) <==> (forall y :: y in m ==> m[y] == 1) && x !in m
  {
    var n := m + multiset{x};
    if forall y :: y in n ==> n[y] == 1 {
      assert n[x] == m[x] + 1;
      forall y | y in m
        ensures m[y] == 1
      {
        assert y in n && n[y] == 1;
      }
    }
  }

  lemma DistinctAppend<T>(s: seq<T>, x: T)
    ensures Distinct(s + [x]) <==> Distinct(s) && x !in s
  {
    if Distinct(s + [x]) {
      forall i, j | 0 <= i < j < |s|
        ensures s[i] != s[j]
      {
        assert (s + [x])[i] != (s + [x])[j];
      }
      forall i | 0 <= i < |s|
        ensures s[i] != x
      {
        assert (s + [x])[i] != (s + [x])[|s|];
      }
    }
  }

  /** A distinct sequence has as many positions as elements. */
  lemma {:induction false} DistinctSize<T>(s: seq<T>)
    requires Distinct(s)
    ensures |set x | x in s| == |s|
  {
    if s != [] {
      var n := |s| - 1;
      assert s == s[..n] + [s[n]];
      DistinctAppend(s[..n], s[n]);
      DistinctSize(s[..n]);
      assert (set x | x in s) == (set x | x in s[..n]) + {s[n]};
    }
  }

  lemma SortDistinct<T>(before: (T, T) -> bool, s: seq<T>)
    ensures Distinct(SortBy(before, s)) <==> Distinct(s)
  {
    SortMembers(before, s);
    DistinctCounts(s);
    DistinctCounts(SortBy(before, s));
  }
}
