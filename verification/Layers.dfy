/** What a stack of segments means: newest record wins, tombstones hide older values. */
module Layers {
  import opened Results
  import opened Keys
  import opened SegmentFile
  import opened SegmentLookup

  /** A memtable slot: a live value, or `None` for a tombstone. */
  type Slot = Option<Bytes>

  type Layer = map<Key, Slot>

  /** All layers merged, oldest first: the newest slot of each key. */
  function Stacked(layers: seq<Layer>): Layer {
    if layers == [] then map[] else Stacked(layers[..|layers| - 1]) + layers[|layers| - 1]
  }

  function Live(l: Layer): map<Key, Bytes> {
    map k | k in l && l[k].Some? :: l[k].value
  }

  /** The plain map that a stack of layers stands for. */
  function Meaning(layers: seq<Layer>): map<Key, Bytes> {
    Live(Stacked(layers))
  }

  lemma {:induction false} StackedAppend(a: seq<Layer>, b: seq<Layer>)
    ensures Stacked(a + b) == Stacked(a) + Stacked(b)
    decreases |b|
  {
    if b == [] {
      assert a + b == a;
      assert Stacked(a) + map[] == Stacked(a);
    } else {
      var n := |b| - 1;
      assert (a + b)[..|a + b| - 1] == a + b[..n];
      StackedAppend(a, b[..n]);
      MapPlusAssociative(Stacked(a), Stacked(b[..n]), b[n]);
    }
  }

  lemma MapPlusAssociative<K, V>(a: map<K, V>, b: map<K, V>, c: map<K, V>)
    ensures a + b + c == a + (b + c)
  {
  }

  lemma StackedOne(l: Layer)
    ensures Stacked([l]) == l
  {
    assert [l][..0] == [];
    assert Stacked([]) == map[];
    assert map[] + l == l;
  }

  // ---------------------------------------------------------------- values as bytes

  const TAG_PRESENT: byte := 1
  const TAG_TOMBSTONE: byte := 0

  function EncodeValue(v: Slot): Bytes {
    match v
    case Some(b) => [TAG_PRESENT] + b
    case None => [TAG_TOMBSTONE]
  }

  function DecodeValue(raw: Bytes): Option<Slot> {
    if raw == [] then None
    else if raw[0] == TAG_PRESENT then Some(Some(raw[1..]))
    else if raw[0] == TAG_TOMBSTONE then Some(None)
    else None
  }

  lemma ValueRoundTrip(v: Slot)
    ensures DecodeValue(EncodeValue(v)) == Some(v)
  {
  }

  // ---------------------------------------------------------------- key order

  lemma {:induction false} LeastExists(s: set<Key>)
    requires s != {}
    ensures exists k :: k in s && forall x :: x in s ==> Leq(k, x)
    decreases |s|
  {
    hide Less;
    var y :| y in s;
    if s == {y} {
      assert forall x :: x in s ==> Leq(y, x);
    } else {
      LeastExists(s - {y});
      var z :| z in s - {y} && forall x :: x in s - {y} ==> Leq(z, x);
      LeastOfBoth(s, y, z);
    }
  }

  lemma LeastOfBoth(s: set<Key>, y: Key, z: Key)
    requires y in s && z in s && forall x :: x in s && x != y ==> Leq(z, x)
    ensures exists k :: k in s && forall x :: x in s ==> Leq(k, x)
  {
    hide Less;
    LessTotal(y, z);
    if Less(y, z) {
      forall x | x in s
        ensures Leq(y, x)
      {
        if Less(z, x) { LessTransitive(y, z, x); }
      }
    }
  }

  function Least(s: set<Key>): (k: Key)
    requires s != {}
    ensures k in s && forall x :: x in s ==> Leq(k, x)
  {
    LeastExists(s);
    assert forall a, b :: a in s && b in s && Leq(a, b) && Leq(b, a) ==> a == b by {
      forall a, b | a in s && b in s && Less(a, b)
        ensures !Leq(b, a)
      {
        LessAsymmetric(a, b);
      }
    }
    var k :| k in s && forall x :: x in s ==> Leq(k, x);
    k
  }

  predicate AscendingKeys(ks: seq<Key>) {
    forall i, j :: 0 <= i < j < |ks| ==> Less(ks[i], ks[j])
  }

  lemma ConsAscendingKeys(k: Key, rest: seq<Key>, s: set<Key>)
    requires AscendingKeys(rest) && k in s
    requires forall x :: x in rest <==> x in s - {k}
    requires forall x :: x in s ==> Leq(k, x)
    ensures AscendingKeys([k] + rest)
    ensures forall x :: x in [k] + rest <==> x in s
  {
    hide Less;
    forall i | 0 <= i < |rest|
      ensures Less(k, rest[i])
    {
      assert rest[i] in rest;
    }
  }

  /** The keys in the order a `BTreeMap` visits them. */
  function SortedKeys(s: set<Key>): (ks: seq<Key>)
    ensures AscendingKeys(ks)
    ensures forall k :: k in ks <==> k in s
    ensures |ks| == |s|
    decreases |s|
  {
    if s == {} then []
    else
      var k := Least(s);
      var rest := SortedKeys(s - {k});
      ConsAscendingKeys(k, rest, s);
      [k] + rest
  }

  /** The entries of a map in key order. */
  function Entries<V>(m: map<Key, V>): (es: seq<(Key, V)>)
    ensures |es| == |m.Keys|
  {
    var ks := SortedKeys(m.Keys);
    seq(|ks|, i requires 0 <= i < |ks| => (ks[i], m[ks[i]]))
  }

  /** The records written for a layer, in key order. */
  function LayerRecords(l: Layer): (rs: seq<Record>)
    ensures |rs| == |l.Keys|
  {
    var ks := SortedKeys(l.Keys);
    seq(|ks|, i requires 0 <= i < |ks| => Record(ks[i], EncodeValue(l[ks[i]])))
  }

  lemma RecordsOfLayer(l: Layer)
    ensures Ascending(LayerRecords(l))
    ensures forall i :: 0 <= i < |LayerRecords(l)| ==>
              LayerRecords(l)[i].key in l && LayerRecords(l)[i].value == EncodeValue(l[LayerRecords(l)[i].key])
    ensures forall k :: k in l ==> exists i :: 0 <= i < |LayerRecords(l)| && LayerRecords(l)[i].key == k
  {
    hide Less;
    var ks := SortedKeys(l.Keys);
    forall k | k in l
      ensures exists i :: 0 <= i < |LayerRecords(l)| && LayerRecords(l)[i].key == k
    {
      assert k in ks;
      var i :| 0 <= i < |ks| && ks[i] == k;
      assert LayerRecords(l)[i].key == k;
    }
  }

  // ---------------------------------------------------------------- records back to layers

  function KeysOf(rs: seq<Record>): set<Key> {
    set r | r in rs :: r.key
  }

  /** Every record of `rs` is one of the layer's. */
  ghost predicate DrawnFrom(rs: seq<Record>, l: Layer) {
    forall i :: 0 <= i < |rs| ==> rs[i].key in l && rs[i].value == EncodeValue(l[rs[i].key])
  }

  /** Linear search of a layer's records is map lookup. */
  lemma {:induction false} LookupDrawn(rs: seq<Record>, l: Layer, key: Key)
    requires DrawnFrom(rs, l)
    ensures Lookup(rs, key) ==
            if exists i :: 0 <= i < |rs| && rs[i].key == key then Some(EncodeValue(l[key])) else None
  {
    hide EncodeValue;
    if rs != [] {
      LookupDrawn(rs[1..], l, key);
      if rs[0].key != key && exists i :: 0 <= i < |rs| && rs[i].key == key {
        var i :| 0 <= i < |rs| && rs[i].key == key;
        assert rs[1..][i - 1].key == key;
      }
    }
  }

  lemma LookupLayer(l: Layer, key: Key)
    ensures Lookup(LayerRecords(l), key) == if key in l then Some(EncodeValue(l[key])) else None
  {
    hide EncodeValue, LayerRecords, Lookup;
    RecordsOfLayer(l);
    LookupDrawn(LayerRecords(l), l, key);
  }

  /** The replay of records into a map: a record with a bad tag is skipped. */
  function Overlay(m: Layer, rs: seq<Record>): Layer {
    if rs == [] then m
    else
      var n := |rs| - 1;
      var base := Overlay(m, rs[..n]);
      match DecodeValue(rs[n].value)
      case Some(slot) => base[rs[n].key := slot]
      case None => base
  }

  lemma {:induction false} OverlayDrawn(m: Layer, rs: seq<Record>, l: Layer)
    requires DrawnFrom(rs, l)
    ensures forall k :: k in Overlay(m, rs) <==> k in m || k in KeysOf(rs)
    ensures forall k :: k in Overlay(m, rs) ==> Overlay(m, rs)[k] == if k in KeysOf(rs) then l[k] else m[k]
  {
    hide EncodeValue, DecodeValue;
    if rs != [] {
      var n := |rs| - 1;
      OverlayDrawn(m, rs[..n], l);
      ValueRoundTrip(l[rs[n].key]);
      KeysOfLast(rs);
    }
  }

  lemma KeysOfLast(rs: seq<Record>)
    requires rs != []
    ensures KeysOf(rs) == KeysOf(rs[..|rs| - 1]) + {rs[|rs| - 1].key}
  {
    assert rs == rs[..|rs| - 1] + [rs[|rs| - 1]];
  }

  lemma LayerIsDrawn(l: Layer)
    ensures DrawnFrom(LayerRecords(l), l)
    ensures KeysOf(LayerRecords(l)) == l.Keys
  {
    hide EncodeValue, LayerRecords;
    RecordsOfLayer(l);
    var rs := LayerRecords(l);
    forall k | k in l
      ensures k in KeysOf(rs)
    {
      var i :| 0 <= i < |rs| && rs[i].key == k;
      assert rs[i] in rs;
    }
  }

  lemma OverlayLayer(m: Layer, l: Layer)
    ensures Overlay(m, LayerRecords(l)) == m + l
  {
    hide EncodeValue, LayerRecords, Overlay, KeysOf, DrawnFrom;
    LayerIsDrawn(l);
    OverlayDrawn(m, LayerRecords(l), l);
  }

  function Prefixed<V>(m: map<Key, V>, p: Key): map<Key, V> {
    map k | k in m && HasPrefix(k, p) :: m[k]
  }

  lemma {:induction false} WithPrefixRecords(rs: seq<Record>, p: Key)
    ensures forall r :: r in WithPrefix(rs, p) <==> r in rs && HasPrefix(r.key, p)
  {
    hide HasPrefix;
    if rs != [] {
      WithPrefixRecords(rs[1..], p);
      assert rs == [rs[0]] + rs[1..];
    }
  }

  lemma PrefixIsDrawn(l: Layer, p: Key)
    ensures DrawnFrom(WithPrefix(LayerRecords(l), p), l)
    ensures KeysOf(WithPrefix(LayerRecords(l), p)) == Prefixed(l, p).Keys
  {
    hide EncodeValue, LayerRecords, WithPrefix, HasPrefix, DrawnFrom;
    var rs, ps := LayerRecords(l), WithPrefix(LayerRecords(l), p);
    LayerIsDrawn(l);
    WithPrefixRecords(rs, p);
    DrawnSubset(rs, ps, l);
    forall k | k in l && HasPrefix(k, p)
      ensures k in KeysOf(ps)
    {
      assert k in KeysOf(rs);
    }
    forall k | k in KeysOf(ps)
      ensures k in l && HasPrefix(k, p)
    {
      assert k in KeysOf(rs);
    }
  }

  lemma OverlayPrefix(m: Layer, l: Layer, p: Key)
    ensures Overlay(m, WithPrefix(LayerRecords(l), p)) == m + Prefixed(l, p)
  {
    hide EncodeValue, LayerRecords, Overlay, WithPrefix, HasPrefix, KeysOf, DrawnFrom;
    PrefixIsDrawn(l, p);
    OverlayDrawn(m, WithPrefix(LayerRecords(l), p), l);
  }

  lemma DrawnSubset(rs: seq<Record>, ps: seq<Record>, l: Layer)
    requires DrawnFrom(rs, l) && forall r :: r in ps ==> r in rs
    ensures DrawnFrom(ps, l)
  {
    hide EncodeValue;
    forall i | 0 <= i < |ps|
      ensures ps[i].key in l && ps[i].value == EncodeValue(l[ps[i].key])
    {
      assert ps[i] in rs;
    }
  }

  lemma PrefixedPlus(a: Layer, b: Layer, p: Key)
    ensures Prefixed(a + b, p) == Prefixed(a, p) + Prefixed(b, p)
  {
  }

  lemma LivePrefixed(l: Layer, p: Key)
    ensures Live(Prefixed(l, p)) == Prefixed(Live(l), p)
  {
  }
}
