/** Queries on a segment: `get` through the sparse index, and prefix scans. */
module SegmentLookup {
  import opened Results
  import opened Keys
  import opened SegmentFile
  import opened SegmentRoundTrip

  // ---------------------------------------------------------------- specification on records

  /** Linear search. */
  function Lookup(rs: seq<Record>, key: Key): Option<Bytes> {
    if rs == [] then None
    else if rs[0].key == key then Some(rs[0].value)
    else Lookup(rs[1..], key)
  }

  /** The records whose key starts with `p`, in order. */
  function WithPrefix(rs: seq<Record>, p: Key): seq<Record> {
    if rs == [] then []
    else (if HasPrefix(rs[0].key, p) then [rs[0]] else []) + WithPrefix(rs[1..], p)
  }

  /** A key strictly between the last record of one stride and the first of the next. */
  ghost predicate FallsBetweenStrides(rs: seq<Record>, key: Key) {
    exists i {:trigger rs[i]} ::
      0 < i < |rs| && i % STRIDE == 0 && Less(rs[i - 1].key, key) && Less(key, rs[i].key)
  }

  // ---------------------------------------------------------------- binary search

  predicate SortedSparse(sp: seq<SparseEntry>) {
    forall i, j :: 0 <= i < j < |sp| ==> Less(sp[i].key, sp[j].key)
  }

  /** The standard library's contract: a match, or the insertion point. */
  method BinarySearch(sp: seq<SparseEntry>, key: Key) returns (found: bool, i: nat)
    ensures i <= |sp|
    ensures found ==> i < |sp| && sp[i].key == key
    ensures !found && SortedSparse(sp) ==>
              && (forall a :: 0 <= a < i ==> Less(sp[a].key, key))
              && (forall b :: i <= b < |sp| ==> Less(key, sp[b].key))
  {
    var lo, hi := 0, |sp|;
    while lo < hi
      invariant 0 <= lo <= hi <= |sp|
      invariant SortedSparse(sp) ==> forall a :: 0 <= a < lo ==> Less(sp[a].key, key)
      invariant SortedSparse(sp) ==> forall b :: hi <= b < |sp| ==> Less(key, sp[b].key)
    {
      var mid := (lo + hi) / 2;
      if sp[mid].key == key {
        return true, mid;
      }
      if Less(sp[mid].key, key) {
        forall a | 0 <= a < mid && SortedSparse(sp)
          ensures Less(sp[a].key, key)
        {
          LessTransitive(sp[a].key, sp[mid].key, key);
        }
        lo := mid + 1;
      } else {
        LessTotal(sp[mid].key, key);
        forall b | mid < b < |sp| && SortedSparse(sp)
          ensures Less(key, sp[b].key)
        {
          LessTransitive(key, sp[mid].key, sp[b].key);
        }
        hi := mid;
      }
    }
    return false, lo;
  }

  // ---------------------------------------------------------------- get

  datatype Hit = Hit(value: Option<Bytes>, probes: nat)

  function OneMore(h: IoResult<Hit>): IoResult<Hit> {
    match h
    case Ok(hit) => Ok(Hit(hit.value, hit.probes + 1))
    case Err(e) => Err(e)
  }

  /** The scan of `read_at` with the number of records it reads. */
  function FindFrom(f: Bytes, pos: nat, end: nat, key: Key): IoResult<Hit>
    decreases end - pos
  {
    if pos >= end then Ok(Hit(None, 0))
    else
      var r :- ReadRecord(f, pos);
      if r.key == key then Ok(Hit(Some(r.value), 1))
      else if Less(key, r.key) then Ok(Hit(None, 1))
      else OneMore(FindFrom(f, pos + Size(r), end, key))
  }

  function More(n: nat, h: IoResult<Hit>): IoResult<Hit> {
    match h
    case Ok(hit) => Ok(Hit(hit.value, hit.probes + n))
    case Err(e) => Err(e)
  }

  method ReadAt(f: Bytes, seg: Segment, start: nat, key: Key)
    returns (r: IoResult<Option<Bytes>>, ghost probes: nat)
    ensures r.Ok? ==> FindFrom(f, start, seg.recordsEnd, key) == Ok(Hit(r.value, probes))
    ensures r.Err? ==> FindFrom(f, start, seg.recordsEnd, key) == Err(r.error)
  {
    hide ReadRecord;
    var pos: nat := start;
    probes := 0;
    while pos < seg.recordsEnd
      invariant FindFrom(f, start, seg.recordsEnd, key) == More(probes, FindFrom(f, pos, seg.recordsEnd, key))
      decreases seg.recordsEnd - pos
    {
      var got := ReadRecord(f, pos);
      if got.Err? {
        return Err(got.error), probes;
      }
      var rec := got.value;
      probes := probes + 1;
      pos := pos + Size(rec);
      if rec.key == key {
        return Ok(Some(rec.value)), probes;
      }
      if Less(key, rec.key) {
        return Ok(None), probes;
      }
    }
    return Ok(None), probes;
  }

  /** The same scan on the records themselves. */
  function Search(rs: seq<Record>, key: Key): Hit {
    if rs == [] then Hit(None, 0)
    else if rs[0].key == key then Hit(Some(rs[0].value), 1)
    else if Less(key, rs[0].key) then Hit(None, 1)
    else
      var h := Search(rs[1..], key);
      Hit(h.value, h.probes + 1)
  }

  lemma {:induction false} FindOnRecords(f: Bytes, rs: seq<Record>, i: nat, key: Key)
    requires EncodeRecords(rs) <= f && Fits(rs) && i <= |rs|
    ensures FindFrom(f, Offset(rs, i), |EncodeRecords(rs)|, key) == Ok(Search(rs[i..], key))
    decreases |rs| - i
  {
    hide ReadRecord, EncodeRecords, Less;
    EndOffset(rs);
    if i < |rs| {
      RecordAt(f, rs, i);
      FindOnRecords(f, rs, i + 1, key);
      assert rs[i..][0] == rs[i] && rs[i..][1..] == rs[i + 1..];
    }
  }

  lemma {:induction false} SearchIsLookup(rs: seq<Record>, key: Key)
    requires Ascending(rs)
    ensures Search(rs, key).value == Lookup(rs, key)
  {
    if rs != [] {
      SearchIsLookup(rs[1..], key);
      if Less(key, rs[0].key) {
        forall i | 0 < i < |rs|
          ensures Less(key, rs[i].key)
        {
          LessTransitive(key, rs[0].key, rs[i].key);
        }
        AboveMisses(rs, key);
      }
    }
  }

  lemma {:induction false} AboveMisses(rs: seq<Record>, key: Key)
    requires forall i :: 0 <= i < |rs| ==> rs[i].key != key || Less(key, rs[i].key)
    ensures Lookup(rs, key) == None
  {
    if rs != [] {
      LessIrreflexive(key);
      AboveMisses(rs[1..], key);
    }
  }

  /** Nothing is lost by starting after records with other keys. */
  lemma {:induction false} LookupDrop(rs: seq<Record>, i: nat, key: Key)
    requires i <= |rs|
    requires forall a :: 0 <= a < i ==> rs[a].key != key
    ensures Lookup(rs, key) == Lookup(rs[i..], key)
    decreases i
  {
    if i > 0 {
      LookupDrop(rs[1..], i - 1, key);
      assert rs[1..][i - 1..] == rs[i..];
    } else {
      assert rs[0..] == rs;
    }
  }

  /** The scan stops at the first record at or above the key, or at the end. */
  lemma {:induction false} SearchReads(rs: seq<Record>, n: nat, key: Key)
    requires n <= |rs|
    requires forall a :: 0 <= a < n ==> Less(rs[a].key, key)
    requires n < |rs| ==> Leq(key, rs[n].key)
    ensures Search(rs, key).probes == if n < |rs| then n + 1 else n
    decreases n
  {
    if n > 0 {
      LessAsymmetric(rs[0].key, key);
      SearchReads(rs[1..], n - 1, key);
    }
  }

  /** The first record at or above the key. */
  ghost function LowerBound(rs: seq<Record>, key: Key): (n: nat)
    requires Ascending(rs)
    ensures n <= |rs|
    ensures forall a :: 0 <= a < n ==> Less(rs[a].key, key)
    ensures n < |rs| ==> Leq(key, rs[n].key)
    decreases |rs|
  {
    if rs == [] then 0
    else
      var m := |rs| - 1;
      var n := LowerBound(rs[..m], key);
      assert forall a :: 0 <= a < n ==> rs[..m][a] == rs[a];
      if n < m then n
      else if Less(rs[m].key, key) then |rs|
      else LessTotal(rs[m].key, key); m
  }

  method Get(f: Bytes, seg: Segment, key: Key, ghost rs: seq<Record>)
    returns (r: IoResult<Option<Bytes>>, ghost probes: nat)
    ensures Stores(f, seg, rs) ==> r == Ok(Lookup(rs, key))
    ensures Stores(f, seg, rs) ==> probes <= STRIDE + 1
    ensures Stores(f, seg, rs) ==> (probes > STRIDE <==> FallsBetweenStrides(rs, key))
  {
    hide Stores, FallsBetweenStrides, Lookup, FindFrom, Less;
    if seg.sparse == [] {
      if Stores(f, seg, rs) { NothingStored(f, seg, rs, key); }
      return Ok(None), 0;
    }
    if Stores(f, seg, rs) { StoredIsSorted(f, seg, rs); }
    var found, i := BinarySearch(seg.sparse, key);
    if found {
      if Stores(f, seg, rs) { GetFrom(f, seg, rs, i, key); }
      r, probes := ReadAt(f, seg, seg.sparse[i].offset, key);
      return;
    }
    if i == 0 {
      if Stores(f, seg, rs) { StoredAbove(f, seg, rs, key); }
      return Ok(None), 0;
    }
    if Stores(f, seg, rs) { GetFrom(f, seg, rs, i - 1, key); }
    r, probes := ReadAt(f, seg, seg.sparse[i - 1].offset, key);
  }

  lemma NothingStored(f: Bytes, seg: Segment, rs: seq<Record>, key: Key)
    requires Stores(f, seg, rs) && seg.sparse == []
    ensures Lookup(rs, key) == None && !FallsBetweenStrides(rs, key)
  {
    SparseLength(rs);
  }

  lemma StoredIsSorted(f: Bytes, seg: Segment, rs: seq<Record>)
    requires Stores(f, seg, rs)
    ensures SortedSparse(seg.sparse)
  {
    SparseIsSorted(rs);
  }

  lemma StoredAbove(f: Bytes, seg: Segment, rs: seq<Record>, key: Key)
    requires Stores(f, seg, rs) && seg.sparse != [] && Less(key, seg.sparse[0].key)
    ensures Lookup(rs, key) == None && !FallsBetweenStrides(rs, key)
  {
    BeforeFirst(rs, key);
  }

  lemma SparseIsSorted(rs: seq<Record>)
    requires Ascending(rs)
    ensures SortedSparse(SparseOf(rs))
  {
    hide SparseOf, Less, EncodeRecords;
    var sp := SparseOf(rs);
    forall i, j | 0 <= i < j < |sp|
      ensures Less(sp[i].key, sp[j].key)
    {
      SparseIndex(rs, i);
      SparseIndex(rs, j);
    }
  }

  lemma BeforeFirst(rs: seq<Record>, key: Key)
    requires Ascending(rs) && SparseOf(rs) != [] && Less(key, SparseOf(rs)[0].key)
    ensures Lookup(rs, key) == None && !FallsBetweenStrides(rs, key)
  {
    hide SparseOf, EncodeRecords;
    SparseIndex(rs, 0);
    forall i | 0 <= i < |rs|
      ensures Less(key, rs[i].key) && !Less(rs[i].key, key)
    {
      if i > 0 { LessTransitive(key, rs[0].key, rs[i].key); }
      LessAsymmetric(key, rs[i].key);
    }
    AboveMisses(rs, key);
  }

  /** Scanning from the largest sparse key at or below `key` finds what linear search finds. */
  lemma GetFrom(f: Bytes, seg: Segment, rs: seq<Record>, j: nat, key: Key)
    requires Stores(f, seg, rs) && j < |seg.sparse|
    requires Leq(seg.sparse[j].key, key)
    requires forall b :: j < b < |seg.sparse| ==> Less(key, seg.sparse[b].key)
    ensures var h := FindFrom(f, seg.sparse[j].offset, seg.recordsEnd, key);
            && h.Ok? && h.value.value == Lookup(rs, key)
            && h.value.probes <= STRIDE + 1
            && (h.value.probes > STRIDE <==> FallsBetweenStrides(rs, key))
  {
    hide SparseOf, EncodeRecords, FindFrom, Search, Lookup, FallsBetweenStrides;
    SparseIndex(rs, j);
    var i := STRIDE * j;
    FindOnRecords(f, rs, i, key);
    var n := LowerBound(rs, key);
    StrideOf(rs, j, n, key);
    forall a | 0 <= a < i
      ensures rs[a].key != key
    {
      LessAsymmetric(rs[a].key, rs[i].key);
    }
    LookupDrop(rs, i, key);
    SearchIsLookup(rs[i..], key);
    SearchReads(rs[i..], n - i, key);
    BetweenStrides(rs, n, key);
    LessIrreflexive(key);
  }

  /** The lower bound of `key` lies within the stride that the sparse index selects. */
  lemma StrideOf(rs: seq<Record>, j: nat, n: nat, key: Key)
    requires Ascending(rs) && j < |SparseOf(rs)|
    requires Leq(SparseOf(rs)[j].key, key)
    requires forall b :: j < b < |SparseOf(rs)| ==> Less(key, SparseOf(rs)[b].key)
    requires n <= |rs| && (forall a :: 0 <= a < n ==> Less(rs[a].key, key)) && (n < |rs| ==> Leq(key, rs[n].key))
    ensures STRIDE * j <= n <= STRIDE * j + STRIDE
    ensures n == STRIDE * j ==> n < |rs| && rs[n].key == key
    ensures n == STRIDE * j + STRIDE && n < |rs| ==> Less(key, rs[n].key)
  {
    hide SparseOf, EncodeRecords;
    SparseIndex(rs, j);
    SparseLength(rs);
    var i := STRIDE * j;
    if n < i {
      LessAsymmetric(rs[n].key, rs[i].key);
      if rs[i].key != key && rs[n].key != key {
        LessTransitive(key, rs[n].key, rs[i].key);
      }
      LessAsymmetric(rs[i].key, key);
      assert false;
    }
    if n == i && rs[n].key != key {
      LessAsymmetric(rs[i].key, key);
    }
    if i + STRIDE < |rs| {
      SparseIndex(rs, j + 1);
      if n > i + STRIDE {
        LessAsymmetric(key, rs[i + STRIDE].key);
      }
    }
  }

  lemma BetweenStrides(rs: seq<Record>, n: nat, key: Key)
    requires Ascending(rs)
    requires n <= |rs| && (forall a :: 0 <= a < n ==> Less(rs[a].key, key)) && (n < |rs| ==> Leq(key, rs[n].key))
    ensures FallsBetweenStrides(rs, key) <==>
              0 < n < |rs| && n % STRIDE == 0 && Less(key, rs[n].key)
  {
    forall i | 0 < i < |rs| && Less(rs[i - 1].key, key) && Less(key, rs[i].key)
      ensures i == n
    {
      LessAsymmetric(key, rs[i].key);
      if n < i {
        LessAsymmetric(rs[i - 1].key, key);
        if n < i - 1 && rs[n].key != key {
          LessTransitive(key, rs[n].key, rs[i - 1].key);
        }
      }
    }
  }

  // ---------------------------------------------------------------- prefix scan

  function ScanFrom(f: Bytes, pos: nat, end: nat, p: Key): IoResult<seq<Record>>
    decreases end - pos
  {
    if pos >= end then Ok([])
    else
      var r :- ReadRecord(f, pos);
      if Less(r.key, p) then ScanFrom(f, pos + Size(r), end, p)
      else if HasPrefix(r.key, p) then Prepend([r], ScanFrom(f, pos + Size(r), end, p))
      else Ok([])
  }

  lemma PrefixIsNotBelow(p: Bytes, k: Bytes)
    requires HasPrefix(k, p)
    ensures !Less(k, p)
  {
    PrefixIsBelow(p, k);
    LessIrreflexive(p);
    if Less(k, p) { LessAsymmetric(k, p); }
  }

  lemma {:induction false} NoneWithPrefix(rs: seq<Record>, p: Key)
    requires forall i :: 0 <= i < |rs| ==> !HasPrefix(rs[i].key, p)
    ensures WithPrefix(rs, p) == []
  {
    if rs != [] { NoneWithPrefix(rs[1..], p); }
  }

  lemma {:induction false} WithPrefixDrop(rs: seq<Record>, i: nat, p: Key)
    requires i <= |rs|
    requires forall a :: 0 <= a < i ==> !HasPrefix(rs[a].key, p)
    ensures WithPrefix(rs, p) == WithPrefix(rs[i..], p)
    decreases i
  {
    if i > 0 {
      WithPrefixDrop(rs[1..], i - 1, p);
      assert rs[1..][i - 1..] == rs[i..];
    } else {
      assert rs[0..] == rs;
    }
  }

  lemma {:induction false} ScanOnRecords(f: Bytes, rs: seq<Record>, i: nat, p: Key)
    requires EncodeRecords(rs) <= f && Fits(rs) && Ascending(rs) && i <= |rs|
    ensures ScanFrom(f, Offset(rs, i), |EncodeRecords(rs)|, p) == Ok(WithPrefix(rs[i..], p))
    decreases |rs| - i
  {
    hide ReadRecord, EncodeRecords, Less;
    EndOffset(rs);
    if i < |rs| {
      RecordAt(f, rs, i);
      ScanOnRecords(f, rs, i + 1, p);
      assert rs[i..][0] == rs[i] && rs[i..][1..] == rs[i + 1..];
      if Less(rs[i].key, p) {
        if HasPrefix(rs[i].key, p) { PrefixIsNotBelow(p, rs[i].key); }
        assert !HasPrefix(rs[i].key, p);
        assert [] + WithPrefix(rs[i + 1..], p) == WithPrefix(rs[i + 1..], p);
      } else if !HasPrefix(rs[i].key, p) {
        PastThePrefix(rs, i, p);
        NoneWithPrefix(rs[i..], p);
      }
    }
  }

  lemma PastThePrefix(rs: seq<Record>, i: nat, p: Key)
    requires Ascending(rs) && i < |rs| && !Less(rs[i].key, p) && !HasPrefix(rs[i].key, p)
    ensures forall b :: i <= b < |rs| ==> !HasPrefix(rs[b].key, p)
  {
    hide Less, HasPrefix;
    LessTotal(rs[i].key, p);
    forall b | i < b < |rs|
      ensures !HasPrefix(rs[b].key, p)
    {
      if HasPrefix(rs[b].key, p) { PrefixRangeIsConvex(p, rs[i].key, rs[b].key); }
    }
  }

  method ScanLoop(f: Bytes, seg: Segment, start: nat, p: Key) returns (r: IoResult<seq<Record>>)
    ensures r == ScanFrom(f, start, seg.recordsEnd, p)
  {
    hide ReadRecord;
    var pos: nat := start;
    var out: seq<Record> := [];
    PrependNil(ScanFrom(f, start, seg.recordsEnd, p));
    while pos < seg.recordsEnd
      invariant ScanFrom(f, start, seg.recordsEnd, p) == Prepend(out, ScanFrom(f, pos, seg.recordsEnd, p))
      decreases seg.recordsEnd - pos
    {
      var rec :- ReadRecord(f, pos);
      PrependPrepend(out, rec, ScanFrom(f, pos + Size(rec), seg.recordsEnd, p));
      pos := pos + Size(rec);
      if Less(rec.key, p) {
        continue;
      }
      if HasPrefix(rec.key, p) {
        out := out + [rec];
      } else {
        break;
      }
    }
    assert out + [] == out;
    return Ok(out);
  }

  method ScanPrefix(f: Bytes, seg: Segment, p: Key, ghost rs: seq<Record>) returns (r: IoResult<seq<Record>>)
    ensures Stores(f, seg, rs) ==> r == Ok(WithPrefix(rs, p))
  {
    hide ScanFrom, WithPrefix;
    if seg.sparse == [] {
      if Stores(f, seg, rs) {
        SparseLength(rs);
        NoneWithPrefix(rs, p);
      }
      return Ok([]);
    }
    if Stores(f, seg, rs) { SparseIsSorted(rs); }
    var found, i := BinarySearch(seg.sparse, p);
    var start: nat := 0;
    if found {
      start := seg.sparse[i].offset;
    } else if i > 0 {
      start := seg.sparse[i - 1].offset;
    }
    if Stores(f, seg, rs) {
      ScanStart(f, seg, rs, found, i, p);
    }
    r := ScanLoop(f, seg, start, p);
  }

  lemma ScanStart(f: Bytes, seg: Segment, rs: seq<Record>, found: bool, i: nat, p: Key)
    requires Stores(f, seg, rs) && i <= |seg.sparse|
    requires found ==> i < |seg.sparse| && seg.sparse[i].key == p
    requires !found && i > 0 ==> Less(seg.sparse[i - 1].key, p)
    ensures ScanFrom(f, if found then seg.sparse[i].offset else if i > 0 then seg.sparse[i - 1].offset else 0,
                     seg.recordsEnd, p) == Ok(WithPrefix(rs, p))
  {
    hide ScanFrom, WithPrefix, SparseOf, EncodeRecords, Less, HasPrefix;
    var at := 0;
    if found || i > 0 {
      var j := if found then i else i - 1;
      SparseIndex(rs, j);
      at := STRIDE * j;
      forall a | 0 <= a < at
        ensures !HasPrefix(rs[a].key, p)
      {
        if rs[at].key != p { LessTransitive(rs[a].key, rs[at].key, p); }
        if HasPrefix(rs[a].key, p) { PrefixIsNotBelow(p, rs[a].key); }
      }
    }
    ScanOnRecords(f, rs, at, p);
    WithPrefixDrop(rs, at, p);
    assert Offset(rs, 0) == 0 by { NoRecords(rs); }
  }

  lemma NoRecords(rs: seq<Record>)
    ensures Offset(rs, 0) == 0
  {
  }
}
