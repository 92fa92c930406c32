/** What is written is read back: the sparse index and every record, byte for byte. */
module SegmentRoundTrip {
  import opened Results
  import opened Keys
  import opened SegmentFile

  // ---------------------------------------------------------------- where things lie

  lemma {:induction false} RecordsPrefix(rs: seq<Record>, i: nat)
    requires i <= |rs|
    ensures EncodeRecords(rs[..i]) <= EncodeRecords(rs)
    decreases |rs|
  {
    if i < |rs| {
      assert rs[..|rs| - 1][..i] == rs[..i];
      RecordsPrefix(rs[..|rs| - 1], i);
    } else {
      assert rs[..i] == rs;
    }
  }

  /** Record `i` occupies exactly the bytes from its offset to the next one. */
  lemma RecordBytes(rs: seq<Record>, i: nat)
    requires i < |rs|
    ensures Offset(rs, i + 1) == Offset(rs, i) + Size(rs[i]) <= |EncodeRecords(rs)|
    ensures EncodeRecords(rs)[Offset(rs, i)..Offset(rs, i + 1)] == EncodeRecord(rs[i])
  {
    assert rs[..i + 1][..i] == rs[..i];
    RecordsPrefix(rs, i + 1);
    var whole, upTo := EncodeRecords(rs), EncodeRecords(rs[..i + 1]);
    assert upTo == whole[..|upTo|];
    assert whole[Offset(rs, i)..Offset(rs, i + 1)] == upTo[Offset(rs, i)..];
  }

  function SparseOffset(sp: seq<SparseEntry>, i: nat): nat
    requires i <= |sp|
  {
    |EncodeSparse(sp[..i])|
  }

  lemma {:induction false} SparsePrefix(sp: seq<SparseEntry>, i: nat)
    requires i <= |sp|
    ensures EncodeSparse(sp[..i]) <= EncodeSparse(sp)
    decreases |sp|
  {
    if i < |sp| {
      assert sp[..|sp| - 1][..i] == sp[..i];
      SparsePrefix(sp[..|sp| - 1], i);
    } else {
      assert sp[..i] == sp;
    }
  }

  lemma SparseBytes(sp: seq<SparseEntry>, i: nat)
    requires i < |sp|
    ensures SparseOffset(sp, i + 1) == SparseOffset(sp, i) + 12 + |sp[i].key| <= |EncodeSparse(sp)|
    ensures EncodeSparse(sp)[SparseOffset(sp, i)..SparseOffset(sp, i + 1)] == PutBytes(sp[i].key) + Le(sp[i].offset, 8)
  {
    assert sp[..i + 1][..i] == sp[..i];
    SparsePrefix(sp, i + 1);
    var whole, upTo := EncodeSparse(sp), EncodeSparse(sp[..i + 1]);
    assert upTo == whole[..|upTo|];
    assert whole[SparseOffset(sp, i)..SparseOffset(sp, i + 1)] == upTo[SparseOffset(sp, i)..];
  }

  // ---------------------------------------------------------------- reading one item

  /** `at` holds in `f` at position `pos`. */
  ghost predicate Holds(f: Bytes, pos: nat, at: Bytes) {
    pos + |at| <= |f| && f[pos..pos + |at|] == at
  }

  lemma HoldsSplit(f: Bytes, pos: nat, a: Bytes, b: Bytes)
    requires Holds(f, pos, a + b)
    ensures Holds(f, pos, a) && Holds(f, pos + |a|, b)
  {
    var w := f[pos..pos + |a + b|];
    assert w[..|a|] == a && w[|a|..] == b;
    assert f[pos..pos + |a|] == w[..|a|];
    assert f[pos + |a|..pos + |a| + |b|] == w[|a|..];
  }

  lemma HoldsWithin(f: Bytes, pos: nat, whole: Bytes, from: nat, to: nat)
    requires Holds(f, pos, whole) && from <= to <= |whole|
    ensures Holds(f, pos + from, whole[from..to])
  {
    var w := f[pos..pos + |whole|];
    forall i | from <= i < to
      ensures f[pos + i] == w[i]
    {
    }
    assert f[pos + from..pos + to] == w[from..to];
  }

  lemma WordReadsBack(f: Bytes, pos: nat, v: nat, n: nat)
    requires Holds(f, pos, Le(v, n)) && v < Pow256(n)
    ensures ReadWord(f, pos, n) == Ok(v)
  {
    LeRoundTrip(v, n);
  }

  lemma BytesReadBack(f: Bytes, pos: nat, b: Bytes)
    requires Holds(f, pos, PutBytes(b)) && |b| < U32_RANGE
    ensures ReadBytes(f, pos) == Ok(b)
  {
    HoldsSplit(f, pos, Le(|b|, 4), b);
    WordSizes();
    WordReadsBack(f, pos, |b|, 4);
  }

  lemma RecordReadsBack(f: Bytes, pos: nat, r: Record)
    requires Holds(f, pos, EncodeRecord(r)) && FitsRecord(r)
    ensures ReadRecord(f, pos) == Ok(r)
  {
    HoldsSplit(f, pos, PutBytes(r.key), PutBytes(r.value));
    BytesReadBack(f, pos, r.key);
    BytesReadBack(f, pos + 4 + |r.key|, r.value);
  }

  predicate FitsEntry(e: SparseEntry) {
    |e.key| < U32_RANGE && e.offset < Pow256(8) && Utf8(e.key)
  }

  lemma EntryReadsBack(f: Bytes, pos: nat, e: SparseEntry)
    requires Holds(f, pos, PutBytes(e.key) + Le(e.offset, 8))
    requires FitsEntry(e)
    ensures ReadEntry(f, pos) == Ok(e)
  {
    hide Le, FromLe, Pow256;
    HoldsSplit(f, pos, PutBytes(e.key), Le(e.offset, 8));
    BytesReadBack(f, pos, e.key);
    WordReadsBack(f, pos + 4 + |e.key|, e.offset, 8);
  }

  // ---------------------------------------------------------------- reading all records

  /** A file whose first bytes are the encoded records yields record `i` at its offset. */
  lemma RecordAt(f: Bytes, rs: seq<Record>, i: nat)
    requires EncodeRecords(rs) <= f && Fits(rs) && i < |rs|
    ensures ReadRecord(f, Offset(rs, i)) == Ok(rs[i])
    ensures Offset(rs, i + 1) == Offset(rs, i) + Size(rs[i]) <= |EncodeRecords(rs)|
  {
    hide EncodeRecord, ReadRecord;
    RecordBytes(rs, i);
    var e := EncodeRecords(rs);
    assert f[..|e|] == e;
    assert f[Offset(rs, i)..Offset(rs, i + 1)] == e[Offset(rs, i)..Offset(rs, i + 1)];
    assert Holds(f, Offset(rs, i), EncodeRecord(rs[i]));
    RecordReadsBack(f, Offset(rs, i), rs[i]);
  }

  lemma EndOffset(rs: seq<Record>)
    ensures Offset(rs, |rs|) == |EncodeRecords(rs)|
  {
    assert rs[..|rs|] == rs;
  }

  lemma RecordsStep(f: Bytes, pos: nat, end: nat, r: Record, rest: seq<Record>)
    requires pos < end && ReadRecord(f, pos) == Ok(r)
    requires RecordsFrom(f, pos + Size(r), end) == Ok(rest)
    ensures RecordsFrom(f, pos, end) == Ok([r] + rest)
  {
  }

  lemma {:induction false} RecordsFromOffset(f: Bytes, rs: seq<Record>, i: nat)
    requires EncodeRecords(rs) <= f && Fits(rs) && i <= |rs|
    ensures RecordsFrom(f, Offset(rs, i), |EncodeRecords(rs)|) == Ok(rs[i..])
    decreases |rs| - i
  {
    hide ReadRecord, EncodeRecords;
    EndOffset(rs);
    if i < |rs| {
      RecordAt(f, rs, i);
      RecordsFromOffset(f, rs, i + 1);
      RecordsStep(f, Offset(rs, i), |EncodeRecords(rs)|, rs[i], rs[i + 1..]);
      assert rs[i..] == [rs[i]] + rs[i + 1..];
    } else {
      assert rs[i..] == [];
    }
  }

  // ---------------------------------------------------------------- the sparse index

  lemma SparseStep(f: Bytes, pos: nat, count: nat, e: SparseEntry, rest: seq<SparseEntry>)
    requires count > 0 && ReadEntry(f, pos) == Ok(e)
    requires SparseFrom(f, pos + 12 + |e.key|, count - 1) == Ok(rest)
    ensures SparseFrom(f, pos, count) == Ok([e] + rest)
  {
  }

  lemma SparseEntryAt(f: Bytes, start: nat, sp: seq<SparseEntry>, i: nat)
    requires Holds(f, start, EncodeSparse(sp)) && i < |sp|
    requires FitsEntry(sp[i])
    ensures ReadEntry(f, start + SparseOffset(sp, i)) == Ok(sp[i])
    ensures SparseOffset(sp, i + 1) == SparseOffset(sp, i) + 12 + |sp[i].key|
  {
    hide ReadEntry, EncodeSparse, Le;
    SparseBytes(sp, i);
    var from, to := SparseOffset(sp, i), SparseOffset(sp, i + 1);
    HoldsWithin(f, start, EncodeSparse(sp), from, to);
    EntryReadsBack(f, start + from, sp[i]);
  }

  lemma {:induction false} SparseFromOffset(f: Bytes, start: nat, sp: seq<SparseEntry>, i: nat)
    requires Holds(f, start, EncodeSparse(sp)) && i <= |sp|
    requires forall e :: e in sp ==> FitsEntry(e)
    ensures SparseFrom(f, start + SparseOffset(sp, i), |sp| - i) == Ok(sp[i..])
    decreases |sp| - i
  {
    hide ReadEntry, EncodeSparse;
    if i < |sp| {
      SparseEntryAt(f, start, sp, i);
      SparseFromOffset(f, start, sp, i + 1);
      SparseStep(f, start + SparseOffset(sp, i), |sp| - i, sp[i], sp[i + 1..]);
      assert sp[i..] == [sp[i]] + sp[i + 1..];
    } else {
      assert sp[i..] == [];
    }
  }

  lemma {:induction false} SparseLength(rs: seq<Record>)
    ensures |SparseOf(rs)| == (|rs| + STRIDE - 1) / STRIDE
  {
    hide EncodeRecords;
    if rs != [] {
      SparseLength(rs[..|rs| - 1]);
    }
  }

  /** Entry `j` of the sparse index names record STRIDE * j and where it starts. */
  lemma {:induction false} SparseIndex(rs: seq<Record>, j: nat)
    requires j < |SparseOf(rs)|
    ensures STRIDE * j < |rs|
    ensures SparseOf(rs)[j] == SparseEntry(rs[STRIDE * j].key, Offset(rs, STRIDE * j))
    decreases |rs|
  {
    hide EncodeRecords;
    var n := |rs| - 1;
    SparseLength(rs);
    SparseLength(rs[..n]);
    if j < |SparseOf(rs[..n])| {
      SparseIndex(rs[..n], j);
      assert rs[..n][..STRIDE * j] == rs[..STRIDE * j];
    }
  }

  lemma FirstOffset(sp: seq<SparseEntry>)
    ensures SparseOffset(sp, 0) == 0 && sp[0..] == sp
  {
  }

  /** A written file and the handle that `open` gives for it. */
  ghost predicate Stores(f: Bytes, seg: Segment, rs: seq<Record>) {
    && Ascending(rs) && Fits(rs)
    && EncodeRecords(rs) <= f
    && seg.sparse == SparseOf(rs)
    && seg.recordsEnd == |EncodeRecords(rs)|
  }

  lemma FooterReadsBack(body: Bytes, end: nat)
    requires end < Pow256(8)
    ensures var f := body + Le(end, 8) + Le(MAGIC, 8);
            FromLe(f[|f| - 8..]) == MAGIC && FromLe(f[|f| - 16..|f| - 8]) == end
  {
    var f := body + Le(end, 8) + Le(MAGIC, 8);
    assert f[|f| - 8..] == Le(MAGIC, 8);
    assert f[|f| - 16..|f| - 8] == Le(end, 8);
    WordSizes();
    LeRoundTrip(MAGIC, 8);
    LeRoundTrip(end, 8);
  }

  lemma SparseEntriesFit(rs: seq<Record>)
    requires Fits(rs) && |EncodeSegment(rs)| <= ISIZE_MAX
    ensures forall e :: e in SparseOf(rs) ==> FitsEntry(e)
  {
    WordSizes();
    forall e | e in SparseOf(rs)
      ensures FitsEntry(e)
    {
      var j :| 0 <= j < |SparseOf(rs)| && SparseOf(rs)[j] == e;
      SparseIndex(rs, j);
      assert FitsRecord(rs[STRIDE * j]);
      RecordBytes(rs, STRIDE * j);
    }
  }

  /** `open` after `write_segment` gives back the sparse index, and the file starts with the records. */
  lemma OpenAfterWrite(path: nat, rs: seq<Record>)
    requires Ascending(rs) && Fits(rs)
    requires |rs| <= MAX_RECORDS && |EncodeSegment(rs)| <= ISIZE_MAX
    ensures Opened(path, EncodeSegment(rs)) == Ok(Segment(path, SparseOf(rs), |EncodeRecords(rs)|))
    ensures Stores(EncodeSegment(rs), Opened(path, EncodeSegment(rs)).value, rs)
  {
    hide EncodeRecords, EncodeSparse, SparseOf, SparseFrom, Le, FromLe;
    var f, e, sp := EncodeSegment(rs), EncodeRecords(rs), SparseOf(rs);
    var body := e + Le(|sp|, 4) + EncodeSparse(sp);
    WordSizes();
    FooterReadsBack(body, |e|);
    assert f == body + Le(|e|, 8) + Le(MAGIC, 8);
    SparseLength(rs);
    assert f[|e|..|e| + 4] == Le(|sp|, 4);
    LeRoundTrip(|sp|, 4);
    assert Holds(f, |e| + 4, EncodeSparse(sp));
    SparseEntriesFit(rs);
    SparseFromOffset(f, |e| + 4, sp, 0);
    FirstOffset(sp);
  }

  lemma ReadBytesFit(f: Bytes, pos: nat)
    ensures ReadBytes(f, pos).Ok? ==> |ReadBytes(f, pos).value| < U32_RANGE
  {
    hide FromLe;
    if pos + 4 <= |f| {
      FromLeBound(f[pos..pos + 4]);
      WordSizes();
    }
  }

  lemma ReadRecordFits(f: Bytes, pos: nat)
    ensures ReadRecord(f, pos).Ok? ==> FitsRecord(ReadRecord(f, pos).value)
  {
    hide ReadBytes;
    if ReadRecord(f, pos).Ok? {
      ReadBytesFit(f, pos);
      ReadBytesFit(f, pos + 4 + |ReadRecord(f, pos).value.key|);
    }
  }

  /** Every record list that could be read has `u32` lengths. */
  lemma {:induction false} ReadRecordsFit(f: Bytes, pos: nat, end: nat)
    ensures RecordsFrom(f, pos, end).Ok? ==> Fits(RecordsFrom(f, pos, end).value)
    decreases end - pos
  {
    hide ReadRecord, FitsRecord;
    if RecordsFrom(f, pos, end).Ok? && pos < end {
      ReadRecordFits(f, pos);
      ReadRecordsFit(f, pos + Size(ReadRecord(f, pos).value), end);
    }
  }

  /**
   * The round trip, with its exact side condition: the records come back byte for byte
   * if and only if every key and value length fits its `u32`.
   */
  lemma RoundTrip(rs: seq<Record>)
    ensures RecordsFrom(EncodeSegment(rs), 0, |EncodeRecords(rs)|) == Ok(rs) <==> Fits(rs)
  {
    var f := EncodeSegment(rs);
    if Fits(rs) {
      assert EncodeRecords(rs) <= f;
      assert rs[..0] == [] && rs[0..] == rs;
      RecordsFromOffset(f, rs, 0);
    }
    ReadRecordsFit(f, 0, |EncodeRecords(rs)|);
  }

  /** No two record lists share a file. */
  lemma EncodingIsInjective(a: seq<Record>, b: seq<Record>)
    requires Fits(a) && Fits(b)
    requires EncodeSegment(a) == EncodeSegment(b) && |EncodeSegment(a)| <= ISIZE_MAX
    ensures a == b
  {
    RoundTrip(a);
    RoundTrip(b);
    WordSizes();
    FooterReadsBack(EncodeRecords(a) + Le(|SparseOf(a)|, 4) + EncodeSparse(SparseOf(a)), |EncodeRecords(a)|);
    FooterReadsBack(EncodeRecords(b) + Le(|SparseOf(b)|, 4) + EncodeSparse(SparseOf(b)), |EncodeRecords(b)|);
  }
}
