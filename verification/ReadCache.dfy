/** The bounded read cache: a hash map with access clocks that behaves as a recency list. */
module ReadCache {
  import opened Results
  import opened Keys
  import opened Sorting

  datatype Entry = Entry(value: Bytes, stamp: nat)

  // ---------------------------------------------------------------- recency lists

  /** `s` without `x`. */
  ghost function Without<T>(s: seq<T>, x: T): seq<T> {
    if s == [] then [] else Without(s[..|s| - 1], x) + if s[|s| - 1] == x then [] else [s[|s| - 1]]
  }

  /** The last `n` elements. */
  ghost function Newest<T>(s: seq<T>, n: nat): seq<T> {
    if |s| <= n then s else s[|s| - n..]
  }

  lemma {:induction false} NothingToDrop<T>(s: seq<T>, x: T)
    requires x !in s
    ensures Without(s, x) == s
  {
    if s != [] {
      var n := |s| - 1;
      assert s == s[..n] + [s[n]];
      NothingToDrop(s[..n], x);
    }
  }

  lemma {:induction false} WithoutAt<T>(s: seq<T>, i: nat)
    requires Distinct(s) && i < |s|
    ensures Without(s, s[i]) == s[..i] + s[i + 1..]
    decreases |s|
  {
    var n := |s| - 1;
    if i < n {
      WithoutAt(s[..n], i);
      assert s[..i] + s[i + 1..] == s[..n][..i] + s[..n][i + 1..] + [s[n]];
    } else {
      assert s[i] !in s[..n];
      NothingToDrop(s[..n], s[i]);
      assert s[..i] + s[i + 1..] == s[..n];
    }
  }

  /** `recency` lists exactly the keys of `m`, by increasing access clock. */
  ghost predicate Ordered(recency: seq<Key>, m: map<Key, Entry>) {
    && (forall i :: 0 <= i < |recency| ==> recency[i] in m)
    && (forall k :: k in m ==> k in recency)
    && (forall i, j :: 0 <= i < j < |recency| ==> m[recency[i]].stamp < m[recency[j]].stamp)
  }

  lemma OrderedIsDistinct(recency: seq<Key>, m: map<Key, Entry>)
    requires Ordered(recency, m)
    ensures Distinct(recency)
  {
    forall i, j | 0 <= i < j < |recency|
      ensures recency[i] != recency[j]
    {
      assert m[recency[i]].stamp < m[recency[j]].stamp;
    }
  }

  lemma CutKeepsOrder(recency: seq<Key>, m: map<Key, Entry>, i: nat)
    requires Ordered(recency, m) && i < |recency|
    ensures Ordered(recency[..i] + recency[i + 1..], m - {recency[i]})
  {
    hide Ordered;
    assert Distinct(recency) by { OrderedIsDistinct(recency, m); }
    var r, key := recency[..i] + recency[i + 1..], recency[i];
    CutIsOrdered(recency, m, i, r);
  }

  lemma CutIsOrdered(recency: seq<Key>, m: map<Key, Entry>, i: nat, r: seq<Key>)
    requires Ordered(recency, m) && i < |recency| && |r| == |recency| - 1
    requires forall j :: 0 <= j < i ==> r[j] == recency[j]
    requires forall j :: i <= j < |r| ==> r[j] == recency[j + 1]
    requires recency[i] !in r
    ensures Ordered(r, m - {recency[i]})
  {
    var rest := m - {recency[i]};
    forall k | k in rest
      ensures k in r
    {
      var j :| 0 <= j < |recency| && recency[j] == k;
      assert r[if j < i then j else j - 1] == k;
    }
    forall a, b | 0 <= a < b < |r|
      ensures r[a] in rest && r[b] in rest && rest[r[a]].stamp < rest[r[b]].stamp
    {
      assert r[a] in r && r[b] in r;
    }
  }

  lemma DropKeepsOrder(recency: seq<Key>, m: map<Key, Entry>, key: Key)
    requires Ordered(recency, m)
    ensures Ordered(Without(recency, key), m - {key})
    ensures |Without(recency, key)| == if key in m then |recency| - 1 else |recency|
  {
    hide Without;
    if key in recency {
      var i :| 0 <= i < |recency| && recency[i] == key;
      OrderedIsDistinct(recency, m);
      WithoutAt(recency, i);
      CutKeepsOrder(recency, m, i);
    } else {
      NothingToDrop(recency, key);
      assert m - {key} == m;
    }
  }

  lemma AppendKeepsOrder(recency: seq<Key>, m: map<Key, Entry>, key: Key, e: Entry)
    requires Ordered(recency, m) && key !in m
    requires forall k :: k in m ==> m[k].stamp < e.stamp
    ensures Ordered(recency + [key], m[key := e])
  {
  }

  lemma TouchKeepsOrder(recency: seq<Key>, m: map<Key, Entry>, key: Key, e: Entry)
    requires Ordered(recency, m)
    requires forall k :: k in m ==> m[k].stamp < e.stamp
    ensures Ordered(Without(recency, key) + [key], m[key := e])
  {
    hide Without, Ordered;
    DropKeepsOrder(recency, m, key);
    AppendKeepsOrder(Without(recency, key), m - {key}, key, e);
    assert (m - {key})[key := e] == m[key := e];
  }

  lemma OrderedSize(recency: seq<Key>, m: map<Key, Entry>)
    requires Ordered(recency, m)
    ensures |recency| == |m|
  {
    OrderedIsDistinct(recency, m);
    DistinctSize(recency);
    assert (set k | k in recency) == m.Keys;
    assert |m| == |m.Keys|;
  }

  lemma DropFirstKeepsOrder(recency: seq<Key>, m: map<Key, Entry>)
    requires Ordered(recency, m) && recency != []
    ensures Ordered(recency[1..], m - {recency[0]})
    ensures recency[1..] == Without(recency, recency[0])
  {
    hide Ordered, Without;
    OrderedIsDistinct(recency, m);
    WithoutAt(recency, 0);
    assert recency[..0] + recency[1..] == recency[1..];
    DropKeepsOrder(recency, m, recency[0]);
  }

  // ---------------------------------------------------------------- the cache

  class Lru {
    const cap: nat
    var clock: nat
    var entries: map<Key, Entry>
    /** The cached keys, least recently used first. */
    ghost var recency: seq<Key>

    ghost predicate Valid()
      reads this
    {
      && Ordered(recency, entries)
      && (forall k :: k in entries ==> entries[k].stamp <= clock)
      && |recency| <= cap
    }

    ghost function Values(): (vs: map<Key, Bytes>)
      reads this
    {
      map k | k in entries :: entries[k].value
    }

    constructor (cap: nat)
      ensures Valid() && this.cap == cap && Values() == map[]
    {
      this.cap := cap;
      clock := 0;
      entries := map[];
      recency := [];
    }

    method Get(key: Key) returns (r: Option<Bytes>)
      requires Valid()
      modifies this
      ensures Valid()
      ensures r == if key in old(Values()) then Some(old(Values())[key]) else None
      ensures Values() == old(Values())
      ensures recency == if key in old(Values()) then Without(old(recency), key) + [key] else old(recency)
    {
      hide Ordered, Without;
      clock := clock + 1;
      if key !in entries {
        return None;
      }
      var entry := entries[key].(stamp := clock);
      DropKeepsOrder(recency, entries, key);
      TouchKeepsOrder(recency, entries, key, entry);
      recency := Without(recency, key) + [key];
      entries := entries[key := entry];
      return Some(entry.value);
    }

    /** The entry with the smallest access clock; a hash map is visited in no particular order. */
    method LeastRecent() returns (victim: Key)
      requires Valid() && entries != map[]
      ensures recency != [] && victim == recency[0]
    {
      var rest := entries.Keys;
      victim :| victim in rest;
      rest := rest - {victim};
      while rest != {}
        invariant rest <= entries.Keys && victim in entries
        invariant forall k :: k in entries && k !in rest ==> entries[victim].stamp <= entries[k].stamp
        decreases rest
      {
        var k :| k in rest;
        if entries[k].stamp < entries[victim].stamp {
          victim := k;
        }
        rest := rest - {k};
      }
      ghost var i :| 0 <= i < |recency| && recency[i] == victim;
      assert recency[0] in entries;
    }

    /** A new key at capacity evicts exactly the least recently used one. */
    method Insert(key: Key, value: Bytes)
      requires Valid()
      modifies this
      ensures Valid()
      ensures recency == Newest(Without(old(recency), key) + [key], cap)
      ensures cap > 0 ==> key in Values()
      ensures key in Values() ==> Values()[key] == value
      ensures forall k :: k in Values() && k != key ==> k in old(Values()) && Values()[k] == old(Values())[k]
    {
      hide Ordered, Without;
      OrderedSize(recency, entries);
      DropKeepsOrder(recency, entries, key);
      if cap == 0 {
        return;
      }
      clock := clock + 1;
      if key !in entries && |entries| >= cap {
        var victim := LeastRecent();
        EvictionIsNewest(recency, entries, key);
        DropFirstKeepsOrder(recency, entries);
        entries := entries - {victim};
        recency := recency[1..];
        DropKeepsOrder(recency, entries, key);
      }
      TouchKeepsOrder(recency, entries, key, Entry(value, clock));
      recency := Without(recency, key) + [key];
      entries := entries[key := Entry(value, clock)];
    }

    method Remove(key: Key)
      requires Valid()
      modifies this
      ensures Valid()
      ensures Values() == old(Values()) - {key}
      ensures recency == Without(old(recency), key)
    {
      hide Ordered, Without;
      DropKeepsOrder(recency, entries, key);
      entries := entries - {key};
      recency := Without(recency, key);
    }
  }

  lemma EvictionIsNewest(recency: seq<Key>, m: map<Key, Entry>, key: Key)
    requires Ordered(recency, m) && key !in m && recency != []
    ensures Without(recency[1..], key) + [key] == (Without(recency, key) + [key])[1..]
  {
    hide Without;
    NothingToDrop(recency, key);
    NothingToDrop(recency[1..], key);
  }
}
