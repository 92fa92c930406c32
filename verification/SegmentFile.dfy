/** The on-disk segment: sorted records, a sparse index and a fixed footer, as bytes. */
module SegmentFile {
  import opened Results
  import opened Keys

  datatype Record = Record(key: Key, value: Bytes)

  datatype SparseEntry = SparseEntry(key: Key, offset: nat)

  /** A read handle: the sparse index in memory, the records on disk under `path`. */
  datatype Segment = Segment(path: nat, sparse: seq<SparseEntry>, recordsEnd: nat)

  const MAGIC: nat := 0xC01D_1DEC_0000_0001
  const STRIDE: nat := 64
  const U32_RANGE: nat := 0x1_0000_0000
  /** A `Vec<u8>` never holds more bytes than this; growing past it panics. */
  const ISIZE_MAX: nat := 0x7FFF_FFFF_FFFF_FFFF
  /** The sparse index counts its entries in a `u32`, one per STRIDE records. */
  const MAX_RECORDS: nat := 64 * 0xFFFF_FFFF

  // ---------------------------------------------------------------- integers

  /** The low `n` bytes of `v`, least significant first (an `as u32` cast included when n == 4). */
  function Le(v: nat, n: nat): (b: Bytes)
    ensures |b| == n
  {
    if n == 0 then [] else [v % 256] + Le(v / 256, n - 1)
  }

  function FromLe(b: Bytes): nat {
    if b == [] then 0 else b[0] + 256 * FromLe(b[1..])
  }

  function Pow256(n: nat): nat {
    if n == 0 then 1 else 256 * Pow256(n - 1)
  }

  lemma LeRoundTrip(v: nat, n: nat)
    requires v < Pow256(n)
    ensures FromLe(Le(v, n)) == v
  {
    if n > 0 {
      LeRoundTrip(v / 256, n - 1);
    }
  }

  lemma FromLeBound(b: Bytes)
    ensures FromLe(b) < Pow256(|b|)
  {
  }

  lemma WordSizes()
    ensures Pow256(4) == U32_RANGE && Pow256(8) == U32_RANGE * U32_RANGE
  {
    assert Pow256(2) == 0x1_0000;
    assert Pow256(4) == 256 * (256 * Pow256(2));
    assert Pow256(6) == 256 * (256 * Pow256(4));
    assert Pow256(8) == 256 * (256 * Pow256(6));
  }

  // ---------------------------------------------------------------- encoding

  function PutBytes(b: Bytes): Bytes {
    Le(|b|, 4) + b
  }

  function EncodeRecord(r: Record): (b: Bytes)
    ensures |b| == 8 + |r.key| + |r.value|
  {
    PutBytes(r.key) + PutBytes(r.value)
  }

  function EncodeRecords(rs: seq<Record>): Bytes {
    if rs == [] then [] else EncodeRecords(rs[..|rs| - 1]) + EncodeRecord(rs[|rs| - 1])
  }

  /** Byte position of record `i`. */
  function Offset(rs: seq<Record>, i: nat): nat
    requires i <= |rs|
  {
    |EncodeRecords(rs[..i])|
  }

  /** One entry for every STRIDE-th record. */
  function SparseOf(rs: seq<Record>): seq<SparseEntry> {
    if rs == [] then []
    else
      var n := |rs| - 1;
      SparseOf(rs[..n])
      + if n % STRIDE == 0 then [SparseEntry(rs[n].key, |EncodeRecords(rs[..n])|)] else []
  }

  function EncodeSparse(sp: seq<SparseEntry>): Bytes {
    if sp == [] then []
    else
      var n := |sp| - 1;
      EncodeSparse(sp[..n]) + (PutBytes(sp[n].key) + Le(sp[n].offset, 8))
  }

  function EncodeSegment(rs: seq<Record>): Bytes {
    EncodeRecords(rs)
    + Le(|SparseOf(rs)|, 4)
    + EncodeSparse(SparseOf(rs))
    + Le(|EncodeRecords(rs)|, 8)
    + Le(MAGIC, 8)
  }

  predicate Ascending(rs: seq<Record>) {
    forall i, j :: 0 <= i < j < |rs| ==> Less(rs[i].key, rs[j].key)
  }

  predicate FitsRecord(r: Record) {
    |r.key| < U32_RANGE && |r.value| < U32_RANGE && Utf8(r.key)
  }

  /** Every length fits the `u32` it is written in, and the keys are text. */
  predicate Fits(rs: seq<Record>) {
    forall i :: 0 <= i < |rs| ==> FitsRecord(rs[i])
  }

  /** The adjacent-pairs test of the writer implies the order of all pairs. */
  lemma AdjacentAscending(rs: seq<Record>)
    requires forall i :: 0 <= i < |rs| - 1 ==> Less(rs[i].key, rs[i + 1].key)
    ensures Ascending(rs)
  {
    if |rs| > 0 {
      var n := |rs| - 1;
      AdjacentAscending(rs[..n]);
      forall i | 0 <= i < n
        ensures Less(rs[i].key, rs[n].key)
      {
        assert rs[..n][i] == rs[i] && rs[..n][n - 1] == rs[n - 1];
        if i < n - 1 {
          LessTransitive(rs[i].key, rs[n - 1].key, rs[n].key);
        }
      }
      forall i, j | 0 <= i < j < |rs|
        ensures Less(rs[i].key, rs[j].key)
      {
        if j < n {
          assert rs[..n][i] == rs[i] && rs[..n][j] == rs[j];
        }
      }
    }
  }

  /** The record loop of the writer: record bytes, and a sparse entry every STRIDE records. */
  method PutRecords(records: seq<Record>) returns (buf: Bytes, sparse: seq<SparseEntry>)
    ensures buf == EncodeRecords(records) && sparse == SparseOf(records)
  {
    buf, sparse := [], [];
    for i := 0 to |records|
      invariant buf == EncodeRecords(records[..i])
      invariant sparse == SparseOf(records[..i])
    {
      assert records[..i + 1][..i] == records[..i];
      if i % STRIDE == 0 {
        sparse := sparse + [SparseEntry(records[i].key, |buf|)];
      }
      buf := buf + EncodeRecord(records[i]);
    }
    assert records[..|records|] == records;
  }

  /** The index loop of the writer. */
  method PutSparse(head: Bytes, sparse: seq<SparseEntry>) returns (buf: Bytes)
    ensures buf == head + EncodeSparse(sparse)
  {
    buf := head;
    for i := 0 to |sparse|
      invariant buf == head + EncodeSparse(sparse[..i])
    {
      assert sparse[..i + 1][..i] == sparse[..i];
      buf := buf + (PutBytes(sparse[i].key) + Le(sparse[i].offset, 8));
    }
    assert sparse[..|sparse|] == sparse;
  }

  /** Refuses unsorted records; otherwise produces the bytes of the segment. */
  method WriteSegment(records: seq<Record>) returns (r: IoResult<Bytes>)
    ensures !Ascending(records) ==> r == Err(Unsorted)
    ensures Ascending(records) ==>
              r == if |EncodeSegment(records)| <= ISIZE_MAX then Ok(EncodeSegment(records)) else Err(CapacityOverflow)
  {
    var w := 0;
    while w + 1 < |records|
      invariant 0 <= w
      invariant forall i :: 0 <= i < w && i + 1 < |records| ==> Less(records[i].key, records[i + 1].key)
    {
      if !Less(records[w].key, records[w + 1].key) {
        return Err(Unsorted);
      }
      w := w + 1;
    }
    AdjacentAscending(records);
    var buf, sparse := PutRecords(records);
    var sparseOffset := |buf|;
    buf := PutSparse(buf + Le(|sparse|, 4), sparse);
    buf := buf + Le(sparseOffset, 8) + Le(MAGIC, 8);
    if |buf| > ISIZE_MAX {
      return Err(CapacityOverflow);
    }
    return Ok(buf);
  }

  // ---------------------------------------------------------------- reading

  function ReadWord(f: Bytes, pos: nat, n: nat): IoResult<nat> {
    if pos + n <= |f| then Ok(FromLe(f[pos..pos + n])) else Err(UnexpectedEof)
  }

  function ReadBytes(f: Bytes, pos: nat): IoResult<Bytes> {
    var len :- ReadWord(f, pos, 4);
    if pos + 4 + len <= |f| then Ok(f[pos + 4..pos + 4 + len]) else Err(UnexpectedEof)
  }

  function ReadString(f: Bytes, pos: nat): IoResult<Key> {
    var b :- ReadBytes(f, pos);
    if Utf8(b) then Ok(b) else Err(NonUtf8Key)
  }

  function ReadRecord(f: Bytes, pos: nat): IoResult<Record> {
    var k :- ReadString(f, pos);
    var v :- ReadBytes(f, pos + 4 + |k|);
    Ok(Record(k, v))
  }

  function ReadEntry(f: Bytes, pos: nat): IoResult<SparseEntry> {
    var k :- ReadString(f, pos);
    var off :- ReadWord(f, pos + 4 + |k|, 8);
    Ok(SparseEntry(k, off))
  }

  function Size(r: Record): nat {
    8 + |r.key| + |r.value|
  }

  function Prepend<T>(out: seq<T>, rest: IoResult<seq<T>>): IoResult<seq<T>> {
    match rest
    case Ok(s) => Ok(out + s)
    case Err(e) => Err(e)
  }

  /** The records from `pos` to `end`, or the first error met on the way. */
  function RecordsFrom(f: Bytes, pos: nat, end: nat): IoResult<seq<Record>>
    decreases end - pos
  {
    if pos >= end then Ok([])
    else
      var r :- ReadRecord(f, pos);
      Prepend([r], RecordsFrom(f, pos + Size(r), end))
  }

  function SparseFrom(f: Bytes, pos: nat, count: nat): IoResult<seq<SparseEntry>>
    decreases count
  {
    if count == 0 then Ok([])
    else
      var e :- ReadEntry(f, pos);
      Prepend([e], SparseFrom(f, pos + 12 + |e.key|, count - 1))
  }

  /** What `Segment::open` makes of the bytes of a file. */
  function Opened(path: nat, f: Bytes): IoResult<Segment> {
    if |f| < 16 then Err(ShorterThanFooter)
    else if FromLe(f[|f| - 8..]) != MAGIC then Err(BadMagic)
    else
      var sparseOffset := FromLe(f[|f| - 16..|f| - 8]);
      if sparseOffset > |f| - 16 then Err(SparsePastEnd)
      else
        var count := FromLe(f[sparseOffset..sparseOffset + 4]);
        var sparse :- SparseFrom(f, sparseOffset + 4, count);
        Ok(Segment(path, sparse, sparseOffset))
  }

  lemma PrependPrepend<T>(a: seq<T>, x: T, rest: IoResult<seq<T>>)
    ensures Prepend(a, Prepend([x], rest)) == Prepend(a + [x], rest)
  {
    if rest.Ok? {
      assert a + ([x] + rest.value) == a + [x] + rest.value;
    }
  }

  lemma PrependNil<T>(rest: IoResult<seq<T>>)
    ensures Prepend([], rest) == rest
  {
    if rest.Ok? {
      assert [] + rest.value == rest.value;
    }
  }

  /** The index loop of `open`. */
  method LoadSparse(f: Bytes, start: nat, count: nat) returns (r: IoResult<seq<SparseEntry>>)
    ensures r == SparseFrom(f, start, count)
  {
    hide ReadEntry;
    var sparse: seq<SparseEntry> := [];
    var pos: nat := start;
    PrependNil(SparseFrom(f, start, count));
    for i := 0 to count
      invariant SparseFrom(f, start, count) == Prepend(sparse, SparseFrom(f, pos, count - i))
    {
      var entry :- ReadEntry(f, pos);
      PrependPrepend(sparse, entry, SparseFrom(f, pos + 12 + |entry.key|, count - i - 1));
      sparse := sparse + [entry];
      pos := pos + 12 + |entry.key|;
    }
    assert sparse + [] == sparse;
    return Ok(sparse);
  }

  method OpenSegment(path: nat, f: Bytes) returns (r: IoResult<Segment>)
    ensures r == Opened(path, f)
  {
    if |f| < 16 {
      return Err(ShorterThanFooter);
    }
    var sparseOffset := FromLe(f[|f| - 16..|f| - 8]);
    if FromLe(f[|f| - 8..]) != MAGIC {
      return Err(BadMagic);
    }
    if sparseOffset > |f| - 16 {
      return Err(SparsePastEnd);
    }
    var count := FromLe(f[sparseOffset..sparseOffset + 4]); // never past the end: the footer follows
    var sparse :- LoadSparse(f, sparseOffset + 4, count);
    return Ok(Segment(path, sparse, sparseOffset));
  }

  method Records(f: Bytes, seg: Segment) returns (r: IoResult<seq<Record>>)
    ensures r == RecordsFrom(f, 0, seg.recordsEnd)
  {
    hide ReadRecord;
    var out: seq<Record> := [];
    var pos: nat := 0;
    PrependNil(RecordsFrom(f, 0, seg.recordsEnd));
    while pos < seg.recordsEnd
      invariant RecordsFrom(f, 0, seg.recordsEnd) == Prepend(out, RecordsFrom(f, pos, seg.recordsEnd))
      decreases seg.recordsEnd - pos
    {
      var rec :- ReadRecord(f, pos);
      PrependPrepend(out, rec, RecordsFrom(f, pos + Size(rec), seg.recordsEnd));
      pos := pos + Size(rec);
      out := out + [rec];
    }
    assert out + [] == out;
    return Ok(out);
  }
}
