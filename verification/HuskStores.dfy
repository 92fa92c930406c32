/** The staged key-value store: memtable, segments on disk, read cache, compaction, reopening. */
module HuskStores {
  import opened Results
  import opened Keys
  import opened SegmentFile
  import opened SegmentRoundTrip
  import opened SegmentLookup
  import opened ReadCache
  import opened Layers
  import opened CompactionCrash

  type Files = map<nat, Bytes>

  // ---------------------------------------------------------------- files as layers

  predicate FitsSlot(k: Key, v: Slot) {
    |k| < U32_RANGE && |EncodeValue(v)| < U32_RANGE && Utf8(k)
  }

  ghost predicate FitsLayer(l: Layer) {
    forall k :: k in l ==> FitsSlot(k, l[k])
  }

  /** The file of a flushed layer. */
  ghost predicate FileHolds(f: Bytes, l: Layer) {
    && f == EncodeSegment(LayerRecords(l))
    && FitsLayer(l)
    && |l.Keys| <= MAX_RECORDS
    && |f| <= ISIZE_MAX
  }

  /** The handle that opening the file of a layer gives. */
  ghost function Handle(path: nat, l: Layer): Segment {
    Segment(path, SparseOf(LayerRecords(l)), |EncodeRecords(LayerRecords(l))|)
  }

  lemma LayerFits(l: Layer)
    requires FitsLayer(l)
    ensures Fits(LayerRecords(l))
  {
    hide LayerRecords, EncodeValue;
    RecordsOfLayer(l);
  }

  lemma HandleIsOpened(path: nat, f: Bytes, l: Layer)
    requires FileHolds(f, l)
    ensures Opened(path, f) == Ok(Handle(path, l))
    ensures Stores(f, Handle(path, l), LayerRecords(l))
    ensures RecordsFrom(f, 0, Handle(path, l).recordsEnd) == Ok(LayerRecords(l))
  {
    hide LayerRecords, Opened, EncodeSegment, RecordsFrom, Fits;
    LayerFits(l);
    RecordsOfLayer(l);
    OpenAfterWrite(path, LayerRecords(l));
    RoundTrip(LayerRecords(l));
  }

  predicate AscendingPaths(paths: seq<nat>) {
    forall i, j :: 0 <= i < j < |paths| ==> paths[i] < paths[j]
  }

  /** The directory consists of exactly the segment files of `layers`, numbered oldest to newest. */
  ghost predicate DirHolds(files: Files, paths: seq<nat>, layers: seq<Layer>) {
    && |paths| == |layers|
    && AscendingPaths(paths)
    && (forall p :: p in files <==> p in paths)
    && (forall i :: 0 <= i < |paths| ==> FileHolds(files[paths[i]], layers[i]))
  }

  /** Reopening the directory in this state gives the map `view`. */
  ghost predicate Recovers(files: Files, view: map<Key, Bytes>) {
    exists paths, layers :: DirHolds(files, paths, layers) && Meaning(layers) == view
  }

  lemma DirHoldsAppend(files: Files, paths: seq<nat>, layers: seq<Layer>, path: nat, f: Bytes, l: Layer)
    requires DirHolds(files, paths, layers) && FileHolds(f, l)
    requires forall i :: 0 <= i < |paths| ==> paths[i] < path
    ensures DirHolds(files[path := f], paths + [path], layers + [l])
  {
    hide FileHolds;
    var ps, ls, fs := paths + [path], layers + [l], files[path := f];
    forall i | 0 <= i < |ps|
      ensures FileHolds(fs[ps[i]], ls[i])
    {
      if i < |paths| { assert ps[i] == paths[i] && ls[i] == layers[i]; }
    }
    forall p
      ensures p in fs <==> p in ps
    {
    }
  }

  lemma DirHoldsDropOldest(files: Files, paths: seq<nat>, layers: seq<Layer>)
    requires DirHolds(files, paths, layers) && paths != []
    ensures DirHolds(files - {paths[0]}, paths[1..], layers[1..])
  {
    hide FileHolds;
    var fs, ps, ls := files - {paths[0]}, paths[1..], layers[1..];
    forall p
      ensures p in fs <==> p in ps
    {
      if p in ps {
        var i :| 0 <= i < |ps| && ps[i] == p;
        assert paths[i + 1] == p;
      }
      if p in fs {
        var i :| 0 <= i < |paths| && paths[i] == p;
        assert ps[i - 1] == p;
      }
    }
    forall i | 0 <= i < |ps|
      ensures ps[i] in fs && FileHolds(fs[ps[i]], ls[i])
    {
      assert ps[i] == paths[i + 1] && ls[i] == layers[i + 1];
    }
  }

  // ---------------------------------------------------------------- the directory

  /** The store's directory: segment number to file contents, each write atomic and durable. */
  class Directory {
    var files: Files
    /** Every state the disk has been in: a crash can stop at any of them. */
    ghost var trace: seq<Files>

    constructor ()
      ensures files == map[] && trace == []
    {
      files := map[];
      trace := [];
    }

    method Write(path: nat, contents: Bytes)
      modifies this
      ensures files == old(files)[path := contents]
      ensures trace == old(trace) + [files]
    {
      files := files[path := contents];
      trace := trace + [files];
    }

    method Remove(path: nat)
      modifies this
      ensures files == old(files) - {path}
      ensures trace == old(trace) + [files]
    {
      files := files - {path};
      trace := trace + [files];
    }
  }

  // ---------------------------------------------------------------- the store

  ghost function PathsOf(segments: seq<Segment>): (ps: seq<nat>)
    ensures |ps| == |segments| && forall i :: 0 <= i < |ps| ==> ps[i] == segments[i].path
  {
    seq(|segments|, i requires 0 <= i < |segments| => segments[i].path)
  }

  /** The open handles, the files they name and the layers these hold. */
  ghost predicate OnDisk(files: Files, segments: seq<Segment>, layers: seq<Layer>, nextSeq: nat) {
    && |segments| == |layers|
    && DirHolds(files, PathsOf(segments), layers)
    && (forall i :: 0 <= i < |segments| ==> segments[i] == Handle(segments[i].path, layers[i]))
    && (forall i :: 0 <= i < |segments| ==> segments[i].path < nextSeq)
  }

  /** A cached value is the newest segment value of a key the memtable does not have. */
  ghost predicate CacheFresh(values: map<Key, Bytes>, buffer: Layer, stacked: Layer) {
    forall k :: k in values ==> k !in buffer && k in stacked && stacked[k] == Some(values[k])
  }

  lemma OnDiskAppend(files: Files, after: Files, segments: seq<Segment>, layers: seq<Layer>, nextSeq: nat,
                     seg: Segment, l: Layer)
    requires OnDisk(files, segments, layers, nextSeq) && seg == Handle(nextSeq, l)
    requires nextSeq in after && FileHolds(after[nextSeq], l) && after == files[nextSeq := after[nextSeq]]
    ensures OnDisk(after, segments + [seg], layers + [l], nextSeq + 1)
    ensures Recovers(after, Meaning(layers + [l]))
  {
    hide FileHolds, Handle, DirHolds, Meaning, Recovers;
    DirHoldsAppend(files, PathsOf(segments), layers, nextSeq, after[nextSeq], l);
    HandlePath(nextSeq, l);
    var segs, ls := segments + [seg], layers + [l];
    assert PathsOf(segs) == PathsOf(segments) + [nextSeq];
    forall i | 0 <= i < |segs|
      ensures segs[i] == Handle(segs[i].path, ls[i]) && segs[i].path < nextSeq + 1
    {
      if i < |segments| { assert segs[i] == segments[i] && ls[i] == layers[i]; }
    }
    RecoversFrom(after, PathsOf(segs), ls);
  }

  lemma HandlePath(path: nat, l: Layer)
    ensures Handle(path, l).path == path
  {
  }

  lemma FlushKeepsMeaning(layers: seq<Layer>, buffer: Layer)
    ensures Stacked(layers + [buffer]) == Stacked(layers) + buffer
  {
    hide Stacked;
    StackedAppend(layers, [buffer]);
    StackedOne(buffer);
  }

  lemma FlushedFile(f: Bytes, l: Layer)
    requires FitsLayer(l) && |l.Keys| <= MAX_RECORDS
    requires f == EncodeSegment(LayerRecords(l)) && |f| <= ISIZE_MAX
    ensures FileHolds(f, l)
  {
    hide EncodeSegment, LayerRecords, FitsLayer;
  }

  lemma RecoversFrom(files: Files, paths: seq<nat>, layers: seq<Layer>)
    requires DirHolds(files, paths, layers)
    ensures Recovers(files, Meaning(layers))
  {
    hide DirHolds, Meaning;
  }

  lemma FreshAfterFlush(values: map<Key, Bytes>, buffer: Layer, stacked: Layer)
    requires CacheFresh(values, buffer, stacked)
    ensures CacheFresh(values, map[], stacked + buffer)
  {
  }

  lemma EmptyBuffer(l: Layer)
    ensures l + map[] == l && FitsLayer(map[])
  {
  }

  lemma PutView(stacked: Layer, buffer: Layer, key: Key, value: Bytes)
    ensures Live(stacked + buffer[key := Some(value)]) == Live(stacked + buffer)[key := value]
  {
  }

  lemma DeleteView(stacked: Layer, buffer: Layer, key: Key)
    ensures Live(stacked + buffer[key := None]) == Live(stacked + buffer) - {key}
  {
  }

  lemma FreshAfterWrite(values: map<Key, Bytes>, buffer: Layer, stacked: Layer, key: Key, slot: Slot)
    requires CacheFresh(values, buffer, stacked)
    ensures CacheFresh(values - {key}, buffer[key := slot], stacked)
  {
  }

  lemma NothingCached(stacked: Layer)
    ensures CacheFresh(map[], map[], stacked)
  {
  }

  lemma FitsUpdate(l: Layer, key: Key, slot: Slot)
    requires FitsLayer(l) && FitsSlot(key, slot)
    ensures FitsLayer(l[key := slot])
    ensures |l[key := slot].Keys| <= |l.Keys| + 1
  {
    hide FitsSlot;
    assert l[key := slot].Keys == l.Keys + {key};
  }

  lemma {:induction false} StackedFits(layers: seq<Layer>)
    requires forall i :: 0 <= i < |layers| ==> FitsLayer(layers[i])
    ensures FitsLayer(Stacked(layers))
  {
    hide FitsSlot;
    if layers != [] {
      StackedFits(layers[..|layers| - 1]);
    }
  }

  lemma MergedFits(files: Files, paths: seq<nat>, layers: seq<Layer>)
    requires DirHolds(files, paths, layers)
    ensures FitsLayer(Merged(layers))
  {
    hide EncodeSegment, LayerRecords, Stacked, FitsSlot;
    forall i | 0 <= i < |layers|
      ensures FitsLayer(layers[i])
    {
      assert FileHolds(files[paths[i]], layers[i]);
    }
    StackedFits(layers);
    forall k | k in Merged(layers)
      ensures FitsSlot(k, Merged(layers)[k])
    {
      assert Stacked(layers)[k] == Merged(layers)[k];
    }
  }

  /** No layer from `i` on has the key: the stack answers from below. */
  lemma {:induction false} StackedBelow(layers: seq<Layer>, i: nat, key: Key)
    requires i <= |layers| && forall t :: i <= t < |layers| ==> key !in layers[t]
    ensures key in Stacked(layers) <==> key in Stacked(layers[..i])
    ensures key in Stacked(layers) ==> Stacked(layers)[key] == Stacked(layers[..i])[key]
    decreases |layers|
  {
    if i < |layers| {
      var n := |layers| - 1;
      StackedBelow(layers[..n], i, key);
      assert layers[..n][..i] == layers[..i];
    } else {
      assert layers[..i] == layers;
    }
  }

  /** `replay` of one segment into the merge map. */
  method ReplayInto(base: Layer, rs: seq<Record>) returns (merged: Layer)
    ensures merged == Overlay(base, rs)
  {
    hide DecodeValue;
    merged := base;
    for i := 0 to |rs|
      invariant merged == Overlay(base, rs[..i])
    {
      assert rs[..i + 1][..i] == rs[..i];
      match DecodeValue(rs[i].value) {
        case Some(slot) => merged := merged[rs[i].key := slot];
        case None =>
      }
    }
    assert rs[..|rs|] == rs;
  }

  /** The compaction replay: a live value is inserted, a tombstone removes its key. */
  method ReplayLive(base: map<Key, Bytes>, rs: seq<Record>, ghost m: Layer) returns (live: map<Key, Bytes>)
    requires base == Live(m)
    ensures live == Live(Overlay(m, rs))
  {
    hide DecodeValue;
    live := base;
    for i := 0 to |rs|
      invariant live == Live(Overlay(m, rs[..i]))
    {
      assert rs[..i + 1][..i] == rs[..i];
      match DecodeValue(rs[i].value) {
        case Some(slot) =>
          if slot.Some? {
            live := live[rs[i].key := slot.value];
          } else {
            live := live - {rs[i].key};
          }
        case None =>
      }
    }
    assert rs[..|rs|] == rs;
  }

  /** `Segment::records` on the file of a layer; such a read cannot fail. */
  method ReadLayer(f: Bytes, seg: Segment, ghost l: Layer) returns (rs: seq<Record>)
    requires FileHolds(f, l) && seg == Handle(seg.path, l)
    ensures rs == LayerRecords(l)
  {
    hide FileHolds, Handle, LayerRecords, Stores, RecordsFrom, Opened;
    HandleIsOpened(seg.path, f, l);
    var r := Records(f, seg);
    return r.value;
  }

  /** `Segment::scan_prefix` on the file of a layer. */
  method ReadPrefix(f: Bytes, seg: Segment, p: Key, ghost l: Layer) returns (rs: seq<Record>)
    requires FileHolds(f, l) && seg == Handle(seg.path, l)
    ensures rs == WithPrefix(LayerRecords(l), p)
  {
    hide FileHolds, Handle, LayerRecords, Stores, RecordsFrom, Opened, WithPrefix;
    HandleIsOpened(seg.path, f, l);
    var r := SegmentLookup.ScanPrefix(f, seg, p, LayerRecords(l));
    return r.value;
  }

  lemma PrefixedPut(taken: Layer, k: Key, slot: Slot, p: Key)
    ensures Prefixed(taken[k := slot], p) ==
            if HasPrefix(k, p) then Prefixed(taken, p)[k := slot] else Prefixed(taken - {k}, p)
  {
  }

  lemma PlusPut(base: Layer, l: Layer, k: Key, slot: Slot)
    ensures base + l[k := slot] == (base + l)[k := slot]
  {
  }

  lemma PlusNothingPrefixed(base: Layer, p: Key)
    ensures base + Prefixed<Slot>(map[], p) == base
  {
  }

  lemma PrefixedOutside(taken: Layer, buffer: Layer, p: Key)
    requires forall k :: k in taken ==> k in buffer && taken[k] == buffer[k]
    requires forall k :: k in buffer && HasPrefix(k, p) ==> k in taken
    ensures Prefixed(taken, p) == Prefixed(buffer, p)
  {
    hide HasPrefix;
  }

  /** The memtable entries from the prefix on, until the first key without it. */
  method RangeInto(base: Layer, buffer: Layer, p: Key) returns (merged: Layer)
    ensures merged == base + Prefixed(buffer, p)
  {
    hide Less, HasPrefix, Prefixed;
    var ks := SortedKeys(buffer.Keys);
    merged := base;
    ghost var taken: Layer := map[];
    PlusNothingPrefixed(base, p);
    var i := 0;
    while i < |ks|
      invariant 0 <= i <= |ks|
      invariant forall k :: k in taken ==> k in buffer && taken[k] == buffer[k]
      invariant forall j :: 0 <= j < i ==> ks[j] in taken
      invariant forall j :: i <= j < |ks| ==> ks[j] !in taken
      invariant merged == base + Prefixed(taken, p)
    {
      var k := ks[i];
      PrefixedPut(taken, k, buffer[k], p);
      if !Less(k, p) {
        if !HasPrefix(k, p) {
          RestLacksPrefix(ks, i, p);
          break;
        }
        PlusPut(base, Prefixed(taken, p), k, buffer[k]);
        merged := merged[k := buffer[k]];
      } else {
        if HasPrefix(k, p) { PrefixIsNotBelow(p, k); }
        assert taken - {k} == taken;
      }
      taken := taken[k := buffer[k]];
      i := i + 1;
      AscendingKeysDistinct(ks);
    }
    forall k | k in buffer && HasPrefix(k, p)
      ensures k in taken
    {
      var j :| 0 <= j < |ks| && ks[j] == k;
    }
    PrefixedOutside(taken, buffer, p);
  }

  lemma AscendingKeysDistinct(ks: seq<Key>)
    requires AscendingKeys(ks)
    ensures forall i, j :: 0 <= i < j < |ks| ==> ks[i] != ks[j]
  {
    hide Less;
    forall i, j | 0 <= i < j < |ks|
      ensures ks[i] != ks[j]
    {
      LessAsymmetric(ks[i], ks[j]);
    }
  }

  lemma RestLacksPrefix(ks: seq<Key>, i: nat, p: Key)
    requires AscendingKeys(ks) && i < |ks| && !Less(ks[i], p) && !HasPrefix(ks[i], p)
    ensures forall j :: i <= j < |ks| ==> !HasPrefix(ks[j], p)
  {
    hide Less, HasPrefix;
    LessTotal(ks[i], p);
    forall j | i < j < |ks|
      ensures !HasPrefix(ks[j], p)
    {
      if HasPrefix(ks[j], p) { PrefixRangeIsConvex(p, ks[i], ks[j]); }
    }
  }

  /** Deletes the merged-away files in order; every state on the way recovers the same map. */
  method RemoveOldest(dir: Directory, paths: seq<nat>, ghost layers: seq<Layer>,
                      ghost newPaths: seq<nat>, ghost newLayers: seq<Layer>, ghost view: map<Key, Bytes>)
    requires |paths| == |layers| && DirHolds(dir.files, paths + newPaths, layers + newLayers)
    requires forall j :: 0 <= j <= |layers| ==> Meaning(layers[j..] + newLayers) == view
    modifies dir
    ensures DirHolds(dir.files, newPaths, newLayers)
    ensures old(dir.trace) <= dir.trace
    ensures forall t :: |old(dir.trace)| <= t < |dir.trace| ==> Recovers(dir.trace[t], view)
  {
    hide DirHolds, Meaning, Recovers;
    assert paths[0..] == paths && layers[0..] == layers;
    for j := 0 to |paths|
      invariant DirHolds(dir.files, paths[j..] + newPaths, layers[j..] + newLayers)
      invariant old(dir.trace) <= dir.trace
      invariant forall t :: |old(dir.trace)| <= t < |dir.trace| ==> Recovers(dir.trace[t], view)
    {
      ghost var ps, ls := paths[j..] + newPaths, layers[j..] + newLayers;
      assert ps[0] == paths[j];
      assert ps[1..] == paths[j + 1..] + newPaths && ls[1..] == layers[j + 1..] + newLayers;
      DirHoldsDropOldest(dir.files, ps, ls);
      dir.Remove(paths[j]);
      RecoversFrom(dir.files, ps[1..], ls[1..]);
    }
    assert paths[|paths|..] + newPaths == newPaths && layers[|paths|..] + newLayers == newLayers;
  }

  class HuskStore {
    const dir: Directory
    const bufferLimit: nat
    const cache: Lru
    var buffer: Layer
    var segments: seq<Segment>
    var nextSeq: nat
    /** What the segments hold, oldest to newest. */
    ghost var layers: seq<Layer>

    ghost predicate Valid()
      reads this, dir, cache
    {
      && cache.Valid()
      && OnDisk(dir.files, segments, layers, nextSeq)
      && CacheFresh(cache.Values(), buffer, Stacked(layers))
      && FitsLayer(buffer)
      && 1 <= bufferLimit <= MAX_RECORDS
      && |buffer.Keys| <= bufferLimit
    }

    /** The memtable is below its limit between calls; a flush that could not finish leaves it full. */
    ghost predicate Settled()
      reads this, dir, cache
    {
      Valid() && |buffer.Keys| < bufferLimit
    }

    /** The map this store stands for. */
    ghost function View(): map<Key, Bytes>
      reads this
    {
      Live(Stacked(layers) + buffer)
    }

    /** The map a crash would leave: everything but the memtable. */
    ghost function Durable(): map<Key, Bytes>
      reads this
    {
      Meaning(layers)
    }

    constructor (dir: Directory, segments: seq<Segment>, nextSeq: nat, bufferLimit: nat, cacheCap: nat,
                 ghost layers: seq<Layer>)
      ensures this.dir == dir && this.segments == segments && this.nextSeq == nextSeq && this.layers == layers
      ensures this.bufferLimit == (if bufferLimit < 1 then 1 else bufferLimit)
      ensures fresh(cache) && cache.cap == cacheCap
      ensures OnDisk(dir.files, segments, layers, nextSeq) && bufferLimit <= MAX_RECORDS ==>
                Settled() && View() == Meaning(layers) && Durable() == Meaning(layers)
    {
      this.dir := dir;
      this.segments := segments;
      this.nextSeq := nextSeq;
      this.bufferLimit := if bufferLimit < 1 then 1 else bufferLimit;
      this.buffer := map[];
      this.cache := new Lru(cacheCap);
      this.layers := layers;
      new;
      hide OnDisk, Live, Stacked, FitsLayer, CacheFresh, Lru.Valid, Lru.Values;
      EmptyBuffer(Stacked(layers));
      NothingCached(Stacked(layers));
    }

    /** Writes the records of `l` as the next segment and opens it: the shared tail of flush and compact. */
    method WriteLayer(l: Layer) returns (r: IoResult<Segment>)
      requires OnDisk(dir.files, segments, layers, nextSeq)
      requires FitsLayer(l) && |l.Keys| <= MAX_RECORDS
      modifies dir
      ensures r.Err? ==> r.error == CapacityOverflow && unchanged(dir)
      ensures r.Ok? ==> r.value == Handle(nextSeq, l)
      ensures r.Ok? ==> nextSeq in dir.files && FileHolds(dir.files[nextSeq], l)
      ensures r.Ok? ==> dir.files == old(dir.files)[nextSeq := dir.files[nextSeq]]
      ensures r.Ok? ==> dir.trace == old(dir.trace) + [dir.files]
    {
      hide FileHolds, Handle, LayerRecords, EncodeSegment, FitsLayer, Ascending, OnDisk, Opened;
      assert Ascending(LayerRecords(l)) by { RecordsOfLayer(l); }
      var bytes :- WriteSegment(LayerRecords(l));
      dir.Write(nextSeq, bytes);
      FlushedFile(bytes, l);
      HandleIsOpened(nextSeq, bytes, l);
      r := OpenSegment(nextSeq, dir.files[nextSeq]);
    }

    /** Takes a written segment into service and clears the memtable it holds. */
    method Adopt(seg: Segment)
      requires cache.Valid() && CacheFresh(cache.Values(), buffer, Stacked(layers))
      requires 1 <= bufferLimit <= MAX_RECORDS
      requires OnDisk(dir.files, segments + [seg], layers + [buffer], nextSeq + 1)
      modifies this
      ensures Valid() && View() == old(View()) && buffer == map[]
      ensures layers == old(layers) + [old(buffer)]
    {
      hide Stacked, FitsLayer, DirHolds, Live, CacheFresh, Handle;
      EmptyBuffer(Stacked(layers) + buffer);
      FlushKeepsMeaning(layers, buffer);
      FreshAfterFlush(cache.Values(), buffer, Stacked(layers));
      segments := segments + [seg];
      layers := layers + [buffer];
      nextSeq := nextSeq + 1;
      buffer := map[];
    }

    method Flush() returns (r: IoResult<()>)
      requires Valid()
      modifies this, dir
      ensures Valid() && View() == old(View())
      ensures r.Ok? ==> buffer == map[] && Durable() == View()
      ensures r.Err? ==> r.error == CapacityOverflow && unchanged(this) && unchanged(dir)
      ensures old(dir.trace) <= dir.trace
      ensures forall t :: |old(dir.trace)| <= t < |dir.trace| ==> Recovers(dir.trace[t], View())
    {
      hide FileHolds, Handle, Stacked, FitsLayer, DirHolds, Live, Recovers, CacheFresh;
      EmptyBuffer(Stacked(layers));
      if buffer == map[] {
        return Ok(());
      }
      var seg :- WriteLayer(buffer);
      OnDiskAppend(old(dir.files), dir.files, segments, layers, nextSeq, seg, buffer);
      Adopt(seg);
      EmptyBuffer(Stacked(layers));
      return Ok(());
    }

    method MaybeFlush() returns (r: IoResult<()>)
      requires Valid()
      modifies this, dir
      ensures Valid() && View() == old(View())
      ensures r.Ok? ==> Settled()
      ensures r.Err? ==> r.error == CapacityOverflow
      ensures Durable() == old(Durable()) || Durable() == View()
      ensures old(dir.trace) <= dir.trace
      ensures forall t :: |old(dir.trace)| <= t < |dir.trace| ==> Recovers(dir.trace[t], View())
    {
      hide FitsLayer, OnDisk, Live, CacheFresh, Recovers, Stacked;
      if |buffer.Keys| >= bufferLimit {
        r := Flush();
      } else {
        r := Ok(());
      }
    }

    /** The common path of put and delete: into the memtable, out of the cache. */
    method Write(key: Key, slot: Slot) returns (r: IoResult<()>)
      requires Settled() && FitsSlot(key, slot)
      modifies this, dir, cache
      ensures Valid()
      ensures View() == Live(old(Stacked(layers)) + old(buffer)[key := slot])
      ensures r.Ok? ==> Settled()
      ensures r.Err? ==> r.error == CapacityOverflow
      ensures Durable() == old(Durable()) || Durable() == View()
      ensures old(dir.trace) <= dir.trace
      ensures forall t :: |old(dir.trace)| <= t < |dir.trace| ==> Recovers(dir.trace[t], View())
    {
      hide FitsLayer, OnDisk, Live, CacheFresh, Recovers, Stacked, FitsSlot;
      FitsUpdate(buffer, key, slot);
      FreshAfterWrite(cache.Values(), buffer, Stacked(layers), key, slot);
      buffer := buffer[key := slot];
      cache.Remove(key);
      r := MaybeFlush();
    }

    method Put(key: Key, value: Bytes) returns (r: IoResult<()>)
      requires Settled() && FitsSlot(key, Some(value))
      modifies this, dir, cache
      ensures Valid() && View() == old(View())[key := value]
      ensures r.Ok? ==> Settled()
      ensures r.Err? ==> r.error == CapacityOverflow
      ensures Durable() == old(Durable()) || Durable() == View()
      ensures old(dir.trace) <= dir.trace
      ensures forall t :: |old(dir.trace)| <= t < |dir.trace| ==> Recovers(dir.trace[t], View())
    {
      hide FitsLayer, OnDisk, Live, CacheFresh, Recovers, Stacked, FitsSlot, Valid;
      PutView(Stacked(layers), buffer, key, value);
      r := Write(key, Some(value));
    }

    method Delete(key: Key) returns (r: IoResult<()>)
      requires Settled() && FitsSlot(key, None)
      modifies this, dir, cache
      ensures Valid() && View() == old(View()) - {key}
      ensures r.Ok? ==> Settled()
      ensures r.Err? ==> r.error == CapacityOverflow
      ensures Durable() == old(Durable()) || Durable() == View()
      ensures old(dir.trace) <= dir.trace
      ensures forall t :: |old(dir.trace)| <= t < |dir.trace| ==> Recovers(dir.trace[t], View())
    {
      hide FitsLayer, OnDisk, Live, CacheFresh, Recovers, Stacked, FitsSlot, Valid;
      DeleteView(Stacked(layers), buffer, key);
      r := Write(key, None);
    }

    /** The newest segment that has the key decides. */
    method FindInSegments(key: Key) returns (r: Option<Option<Bytes>>)
      requires OnDisk(dir.files, segments, layers, nextSeq)
      ensures r == if key in Stacked(layers) then Some(Stacked(layers)[key]) else None
    {
      hide FileHolds, Handle, EncodeValue, DecodeValue, Stacked;
      var i := |segments|;
      while i > 0
        invariant 0 <= i <= |segments|
        invariant forall t :: i <= t < |segments| ==> key !in layers[t]
      {
        i := i - 1;
        assert PathsOf(segments)[i] == segments[i].path;
        var raw := ReadValue(dir.files[segments[i].path], segments[i], key, layers[i]);
        if raw.Some? {
          ValueRoundTrip(layers[i][key]);
          NewestDecides(layers, i, key);
          var slot := DecodeValue(raw.value);
          return if slot.Some? then slot else Some(None);
        }
      }
      NoLayerHas(layers, key);
      return None;
    }

    method Get(key: Key) returns (r: IoResult<Option<Bytes>>)
      requires Valid()
      modifies cache
      ensures Valid()
      ensures r == Ok(if key in View() then Some(View()[key]) else None)
    {
      hide FitsLayer, OnDisk, Stacked, Live, CacheFresh;
      ViewAt(Stacked(layers), buffer, key);
      if key in buffer {
        return Ok(buffer[key]);
      }
      CachedAt(cache.Values(), buffer, Stacked(layers), key);
      var cached := cache.Get(key);
      if cached.Some? {
        return Ok(cached);
      }
      var found := FindInSegments(key);
      if found.None? {
        return Ok(None);
      }
      if found.value.Some? {
        ghost var before := cache.Values();
        cache.Insert(key, found.value.value);
        FreshAfterInsert(before, cache.Values(), buffer, Stacked(layers), key);
      }
      return Ok(found.value);
    }
  
    /** Every live pair in key order. */
    method LiveEntries() returns (r: seq<(Key, Bytes)>)
      requires Valid()
      ensures r == Entries(View())
    {
      hide FileHolds, Handle, LayerRecords, Overlay, Live, FitsLayer, CacheFresh, Entries;
      var merged: Layer := map[];
      for i := 0 to |segments|
        invariant merged == Stacked(layers[..i])
      {
        assert PathsOf(segments)[i] == segments[i].path;
        assert layers[..i + 1][..i] == layers[..i];
        var rs := ReadLayer(dir.files[segments[i].path], segments[i], layers[i]);
        OverlayLayer(merged, layers[i]);
        merged := ReplayInto(merged, rs);
      }
      assert layers[..|segments|] == layers;
      merged := merged + buffer;
      return Entries(Live(merged));
    }

    /** Every live pair whose key starts with `p`, in key order. */
    method ScanPrefix(p: Key) returns (r: seq<(Key, Bytes)>)
      requires Valid()
      ensures r == Entries(Prefixed(View(), p))
    {
      hide FileHolds, Handle, LayerRecords, Overlay, Live, FitsLayer, CacheFresh, Entries, HasPrefix, WithPrefix, Prefixed;
      var merged: Layer := map[];
      NothingPrefixed(p);
      for i := 0 to |segments|
        invariant merged == Prefixed(Stacked(layers[..i]), p)
      {
        assert PathsOf(segments)[i] == segments[i].path;
        assert layers[..i + 1][..i] == layers[..i];
        var rs := ReadPrefix(dir.files[segments[i].path], segments[i], p, layers[i]);
        OverlayPrefix(merged, layers[i], p);
        PrefixedPlus(Stacked(layers[..i]), layers[i], p);
        merged := ReplayInto(merged, rs);
      }
      assert layers[..|segments|] == layers;
      PrefixedPlus(Stacked(layers), buffer, p);
      merged := RangeInto(merged, buffer, p);
      LivePrefixed(Stacked(layers) + buffer, p);
      return Entries(Live(merged));
    }

    /** The live map of all segments. */
    method MergeLive() returns (live: map<Key, Bytes>)
      requires OnDisk(dir.files, segments, layers, nextSeq)
      ensures live == Meaning(layers)
    {
      hide FileHolds, Handle, LayerRecords, Overlay, Live;
      live := map[];
      assert live == Live(map[]) by { NothingLive(); }
      for i := 0 to |segments|
        invariant live == Live(Stacked(layers[..i]))
      {
        assert PathsOf(segments)[i] == segments[i].path;
        assert layers[..i + 1][..i] == layers[..i];
        var rs := ReadLayer(dir.files[segments[i].path], segments[i], layers[i]);
        OverlayLayer(Stacked(layers[..i]), layers[i]);
        live := ReplayLive(live, rs, Stacked(layers[..i]));
      }
      assert layers[..|segments|] == layers;
    }

    /**
     * Merges all segments into one. Whatever disk state a crash stops at, reopening it
     * gives the map held before the call.
     */
    method Compact() returns (r: IoResult<()>)
      requires Settled() && |View().Keys| <= MAX_RECORDS
      modifies this, dir
      ensures Valid() && View() == old(View())
      ensures r.Ok? ==> Settled() && buffer == map[] && |segments| <= 1 && Durable() == View()
      ensures r.Err? ==> r.error == CapacityOverflow
      ensures Durable() == old(Durable()) || Durable() == View()
      ensures old(dir.trace) <= dir.trace
      ensures forall t :: |old(dir.trace)| <= t < |dir.trace| ==> Recovers(dir.trace[t], View())
    {
      hide FileHolds, Handle, Live, FitsLayer, CacheFresh, Recovers, Merged, Stacked, OnDisk;
      var _ :- Flush();
      EmptyBuffer(Stacked(layers));
      if |segments| < 2 {
        return Ok(());
      }
      r := MergeAll();
      EmptyBuffer(Stacked(layers));
    }

    /** Writes the merged segment, unless nothing is live. */
    method WriteMerged(live: map<Key, Bytes>) returns (r: IoResult<seq<Segment>>, ghost newLayers: seq<Layer>)
      requires OnDisk(dir.files, segments, layers, nextSeq)
      requires live == Meaning(layers) && |live.Keys| <= MAX_RECORDS
      modifies this`nextSeq, dir
      ensures r.Err? ==> r.error == CapacityOverflow && unchanged(this) && unchanged(dir)
      ensures newLayers == if Meaning(layers) == map[] then [] else [Merged(layers)]
      ensures r.Ok? ==>
                && OnDisk(dir.files, segments + r.value, layers + newLayers, nextSeq)
                && |r.value| == |newLayers|
      ensures old(dir.trace) <= dir.trace
      ensures forall t :: |old(dir.trace)| <= t < |dir.trace| ==> Recovers(dir.trace[t], Meaning(layers))
    {
      hide FileHolds, Handle, Meaning, FitsLayer, Recovers, Merged, DirHolds;
      newLayers := if Meaning(layers) == map[] then [] else [Merged(layers)];
      if live == map[] {
        assert segments + [] == segments && layers + [] == layers;
        return Ok([]), newLayers;
      }
      MergedFits(dir.files, PathsOf(segments), layers);
      MergedKeys(layers);
      var merged: Layer := map k | k in live :: Some(live[k]);
      MergedIs(layers, merged);
      var got := WriteLayer(merged);
      if got.Err? {
        return Err(got.error), newLayers;
      }
      OnDiskAppend(old(dir.files), dir.files, segments, layers, nextSeq, got.value, merged);
      DeletedPrefixIsSafe(layers, 0);
      assert layers[0..] == layers;
      nextSeq := nextSeq + 1;
      return Ok([got.value]), newLayers;
    }

    /** The merge proper, on an empty memtable. */
    method MergeAll() returns (r: IoResult<()>)
      requires Valid() && buffer == map[] && |Meaning(layers).Keys| <= MAX_RECORDS
      modifies this, dir
      ensures Valid() && buffer == map[] && Meaning(layers) == old(Meaning(layers))
      ensures r.Ok? ==> |segments| <= 1
      ensures r.Err? ==> r.error == CapacityOverflow
      ensures old(dir.trace) <= dir.trace
      ensures forall t :: |old(dir.trace)| <= t < |dir.trace| ==> Recovers(dir.trace[t], Meaning(layers))
    {
      hide FileHolds, Handle, Meaning, FitsLayer, Recovers, Merged, DirHolds, CacheFresh, Stacked;
      var live := MergeLive();
      var got, newLayers := WriteMerged(live);
      if got.Err? {
        return Err(got.error);
      }
      var oldPaths := seq(|segments|, i requires 0 <= i < |segments| reads this => segments[i].path);
      assert oldPaths == PathsOf(segments);
      OnDiskTail(dir.files, segments, got.value, layers, newLayers, nextSeq);
      forall j | 0 <= j <= |layers|
        ensures Meaning(layers[j..] + newLayers) == Meaning(layers)
      {
        DeletedPrefixIsSafe(layers, j);
      }
      FreshAfterMerge(cache.Values(), buffer, layers, newLayers);
      RemoveOldest(dir, oldPaths, layers, PathsOf(got.value), newLayers, Meaning(layers));
      assert layers[|layers|..] + newLayers == newLayers;
      segments := got.value;
      layers := newLayers;
      return Ok(());
    }
  }

  /** What is on the disk recovers what the store calls durable. */
  lemma DiskRecovers(s: HuskStore)
    requires s.Valid()
    ensures Recovers(s.dir.files, s.Durable())
  {
    hide FileHolds, Meaning, Recovers;
    RecoversFrom(s.dir.files, PathsOf(s.segments), s.layers);
  }

  /** The new handles stay good whatever happens to the files of the old ones. */
  lemma OnDiskTail(files: Files, a: seq<Segment>, b: seq<Segment>, la: seq<Layer>, lb: seq<Layer>, nextSeq: nat)
    requires OnDisk(files, a + b, la + lb, nextSeq) && |b| == |lb|
    ensures DirHolds(files, PathsOf(a) + PathsOf(b), la + lb)
    ensures forall fs :: DirHolds(fs, PathsOf(b), lb) ==> OnDisk(fs, b, lb, nextSeq)
  {
    hide FileHolds, Handle, DirHolds;
    assert PathsOf(a + b) == PathsOf(a) + PathsOf(b);
    forall i | 0 <= i < |b|
      ensures b[i] == Handle(b[i].path, lb[i]) && b[i].path < nextSeq
    {
      assert (a + b)[|a| + i] == b[i] && (la + lb)[|la| + i] == lb[i];
    }
  }

  lemma FreshAfterMerge(values: map<Key, Bytes>, buffer: Layer, layers: seq<Layer>, newLayers: seq<Layer>)
    requires CacheFresh(values, buffer, Stacked(layers))
    requires newLayers == if Meaning(layers) == map[] then [] else [Merged(layers)]
    ensures CacheFresh(values, buffer, Stacked(newLayers))
  {
    hide Stacked;
    StackedOne(Merged(layers));
    forall k | k in values
      ensures k in Meaning(layers)
    {
    }
  }

  lemma NothingPrefixed(p: Key)
    ensures Prefixed<Slot>(map[], p) == map[]
  {
  }

  lemma NothingLive()
    ensures Live(map[]) == map[]
  {
  }

  lemma MergedKeys(layers: seq<Layer>)
    ensures Merged(layers).Keys == Meaning(layers).Keys
  {
    hide Stacked;
  }

  lemma MergedIs(layers: seq<Layer>, merged: Layer)
    requires merged == map k | k in Meaning(layers) :: Some(Meaning(layers)[k])
    ensures merged == Merged(layers)
  {
    hide Stacked;
  }

  lemma ViewAt(stacked: Layer, buffer: Layer, key: Key)
    ensures key in Live(stacked + buffer) <==>
              if key in buffer then buffer[key].Some? else key in stacked && stacked[key].Some?
    ensures key in Live(stacked + buffer) ==>
              Some(Live(stacked + buffer)[key]) == if key in buffer then buffer[key] else stacked[key]
  {
  }

  lemma CachedAt(values: map<Key, Bytes>, buffer: Layer, stacked: Layer, key: Key)
    requires CacheFresh(values, buffer, stacked)
    ensures key in values ==> key in stacked && stacked[key] == Some(values[key])
  {
  }

  lemma FreshAfterInsert(before: map<Key, Bytes>, after: map<Key, Bytes>, buffer: Layer, stacked: Layer, key: Key)
    requires CacheFresh(before, buffer, stacked) && key !in buffer && key in stacked && stacked[key].Some?
    requires key in after ==> stacked[key] == Some(after[key])
    requires forall k :: k in after && k != key ==> k in before && after[k] == before[k]
    ensures CacheFresh(after, buffer, stacked)
  {
  }

  /** `Segment::get` on the file of a layer; such a read cannot fail. */
  method ReadValue(f: Bytes, seg: Segment, key: Key, ghost l: Layer) returns (raw: Option<Bytes>)
    requires FileHolds(f, l) && seg == Handle(seg.path, l)
    ensures raw == if key in l then Some(EncodeValue(l[key])) else None
  {
    hide FileHolds, Handle, LayerRecords, Stores, EncodeValue, Lookup, RecordsFrom, FallsBetweenStrides, Opened;
    HandleIsOpened(seg.path, f, l);
    LookupLayer(l, key);
    var r, _ := SegmentLookup.Get(f, seg, key, LayerRecords(l));
    return r.value;
  }

  lemma NewestDecides(layers: seq<Layer>, i: nat, key: Key)
    requires i < |layers| && key in layers[i]
    requires forall t :: i < t < |layers| ==> key !in layers[t]
    ensures key in Stacked(layers) && Stacked(layers)[key] == layers[i][key]
  {
    StackedBelow(layers, i + 1, key);
    assert layers[..i + 1][..i] == layers[..i];
  }

  lemma NoLayerHas(layers: seq<Layer>, key: Key)
    requires forall t :: 0 <= t < |layers| ==> key !in layers[t]
    ensures key !in Stacked(layers)
  {
    StackedBelow(layers, 0, key);
  }

  // ---------------------------------------------------------------- reopening

  lemma LeastPath(s: set<nat>) returns (least: nat)
    requires s != {}
    ensures least in s && forall q :: q in s ==> least <= q
    decreases |s|
  {
    least :| least in s;
    if s != {least} {
      var m := LeastPath(s - {least});
      assert forall q :: q in s ==> q == least || q in s - {least};
      if m < least { least := m; }
    }
  }

  function FirstPath(s: set<nat>): (least: nat)
    requires s != {}
    ensures least in s && forall q :: q in s ==> least <= q
  {
    assert exists p :: p in s && forall q :: q in s ==> p <= q by { var p := LeastPath(s); }
    var least :| least in s && forall q :: q in s ==> least <= q;
    least
  }

  /** Segment numbers in ascending order. */
  function SortedPaths(s: set<nat>): (ps: seq<nat>)
    ensures AscendingPaths(ps)
    ensures forall p :: p in ps <==> p in s
    decreases |s|
  {
    if s == {} then []
    else
      var least := FirstPath(s);
      var rest := SortedPaths(s - {least});
      ConsAscending(least, rest, s);
      [least] + rest
  }

  lemma ConsAscending(least: nat, rest: seq<nat>, s: set<nat>)
    requires AscendingPaths(rest) && least in s
    requires forall p :: p in rest <==> p in s - {least}
    requires forall q :: q in s ==> least <= q
    ensures AscendingPaths([least] + rest)
    ensures forall p :: p in [least] + rest <==> p in s
  {
    forall i | 0 <= i < |rest|
      ensures least < rest[i]
    {
      assert rest[i] in rest;
    }
  }

  lemma {:induction false} SortedPathsUnique(a: seq<nat>, b: seq<nat>)
    requires AscendingPaths(a) && AscendingPaths(b)
    requires forall p :: p in a <==> p in b
    ensures a == b
  {
    if a != [] && b != [] {
      assert a[0] in b && b[0] in a;
      assert a[0] == b[0];
      forall p
        ensures p in a[1..] <==> p in b[1..]
      {
        TailMembers(a, p);
        TailMembers(b, p);
      }
      SortedPathsUnique(a[1..], b[1..]);
      assert a == [a[0]] + a[1..] && b == [b[0]] + b[1..];
    } else if a != [] {
      HeadIsMember(a);
    } else if b != [] {
      HeadIsMember(b);
    }
  }

  lemma HeadIsMember(a: seq<nat>)
    requires a != []
    ensures a[0] in a
  {
  }

  lemma TailMembers(a: seq<nat>, p: nat)
    requires AscendingPaths(a) && a != []
    ensures p in a[1..] <==> p in a && p != a[0]
  {
    if p in a && p != a[0] {
      var i :| 0 <= i < |a| && a[i] == p;
      assert a[1..][i - 1] == p;
    }
  }

  /** Opens every segment file in order; the first bad one fails the whole call. */
  method OpenAll(files: Files, found: seq<nat>) returns (r: IoResult<seq<Segment>>)
    requires forall i :: 0 <= i < |found| ==> found[i] in files
    ensures r.Ok? ==>
              && |r.value| == |found|
              && forall i :: 0 <= i < |found| ==> Opened(found[i], files[found[i]]) == Ok(r.value[i])
    ensures r.Err? ==> exists i :: 0 <= i < |found| && Opened(found[i], files[found[i]]) == Err(r.error)
  {
    hide Opened;
    var segments: seq<Segment> := [];
    for i := 0 to |found|
      invariant |segments| == i
      invariant forall j :: 0 <= j < i ==> Opened(found[j], files[found[j]]) == Ok(segments[j])
    {
      var seg := OpenSegment(found[i], files[found[i]]);
      if seg.Err? {
        return Err(seg.error);
      }
      segments := segments + [seg.value];
    }
    return Ok(segments);
  }

  /** Handles obtained by opening are the handles of the layers on disk. */
  lemma ReopenedOnDisk(files: Files, found: seq<nat>, segments: seq<Segment>, paths: seq<nat>, layers: seq<Layer>, nextSeq: nat)
    requires DirHolds(files, paths, layers) && found == paths && |segments| == |found|
    requires forall i :: 0 <= i < |found| ==> Opened(found[i], files[found[i]]) == Ok(segments[i])
    requires forall i :: 0 <= i < |found| ==> found[i] < nextSeq
    ensures OnDisk(files, segments, layers, nextSeq)
  {
    hide FileHolds, Handle, Opened, Stores, RecordsFrom, LayerRecords;
    forall i | 0 <= i < |segments|
      ensures segments[i] == Handle(found[i], layers[i]) && segments[i].path == found[i]
    {
      HandleIsOpened(found[i], files[paths[i]], layers[i]);
      HandlePath(found[i], layers[i]);
    }
    assert PathsOf(segments) == paths;
  }

  /**
   * Opens a store on the segments left by a previous run. A directory in any state that
   * recovers `view` gives a store standing for `view`; an unreadable segment is an error.
   */
  method Open(dir: Directory, bufferLimit: nat, cacheCap: nat, ghost view: map<Key, Bytes>)
    returns (r: IoResult<HuskStore>)
    requires bufferLimit <= MAX_RECORDS
    ensures Recovers(dir.files, view) ==>
              r.Ok? && fresh(r.value) && fresh(r.value.cache) && r.value.dir == dir &&
              r.value.Settled() && r.value.View() == view && r.value.Durable() == view
    ensures (exists p :: p in dir.files && Opened(p, dir.files[p]).Err?) ==> r.Err?
  {
    hide Opened, Meaning, OnDisk, Recovers, HuskStore.Valid;
    var found := SortedPaths(dir.files.Keys);
    var nextSeq := if found == [] then 0 else found[|found| - 1] + 1;
    var got := OpenAll(dir.files, found);
    ghost var layers := [];
    if Recovers(dir.files, view) {
      layers := Reopened(dir.files, found, got, nextSeq, view);
    }
    if got.Err? {
      return Err(got.error);
    }
    var store := new HuskStore(dir, got.value, nextSeq, bufferLimit, cacheCap, layers);
    return Ok(store);
  }

  /** In a directory that recovers `view` every file opens, and the handles stand for `view`. */
  lemma Reopened(files: Files, found: seq<nat>, got: IoResult<seq<Segment>>, nextSeq: nat, view: map<Key, Bytes>)
    returns (layers: seq<Layer>)
    requires Recovers(files, view)
    requires AscendingPaths(found) && forall p :: p in found <==> p in files
    requires got.Ok? ==>
               && |got.value| == |found|
               && forall i :: 0 <= i < |found| ==> Opened(found[i], files[found[i]]) == Ok(got.value[i])
    requires got.Err? ==> exists i :: 0 <= i < |found| && Opened(found[i], files[found[i]]) == Err(got.error)
    requires nextSeq == if found == [] then 0 else found[|found| - 1] + 1
    ensures got.Ok? && OnDisk(files, got.value, layers, nextSeq) && Meaning(layers) == view
  {
    hide Opened, Meaning, OnDisk, DirHolds;
    var paths;
    paths, layers :| DirHolds(files, paths, layers) && Meaning(layers) == view;
    RecoveredOpens(files, found, paths, layers);
    ReopenedOnDisk(files, found, got.value, paths, layers, nextSeq);
  }

  lemma RecoveredOpens(files: Files, found: seq<nat>, paths: seq<nat>, layers: seq<Layer>)
    requires DirHolds(files, paths, layers)
    requires AscendingPaths(found) && forall p :: p in found <==> p in files
    ensures found == paths
    ensures forall i :: 0 <= i < |found| ==> Opened(found[i], files[found[i]]).Ok?
  {
    hide FileHolds, Handle, Opened, Stores, RecordsFrom, LayerRecords;
    SortedPathsUnique(found, paths);
    forall i | 0 <= i < |found|
      ensures Opened(found[i], files[found[i]]).Ok?
    {
      HandleIsOpened(found[i], files[paths[i]], layers[i]);
    }
  }
}
