/** A store that crashes and reopens, any number of times: what survives is a prefix of every life, past its last flush. */
module CrashRuns {
  import opened Results
  import opened Keys
  import opened SegmentFile
  import opened SegmentRoundTrip
  import opened Layers
  import opened HuskStores
  import opened StoreRuns

  // ---------------------------------------------------------------- a directory recovers one map

  lemma FileHoldsOneLayer(f: Bytes, a: Layer, b: Layer)
    requires FileHolds(f, a) && FileHolds(f, b)
    ensures a == b
  {
    hide LayerRecords, EncodeSegment;
    LayerFits(a);
    LayerFits(b);
    EncodingIsInjective(LayerRecords(a), LayerRecords(b));
    OverlayLayer(map[], a);
    OverlayLayer(map[], b);
    assert map[] + a == a && map[] + b == b;
  }

  /** Reopening is determined: a directory stands for at most one map. */
  lemma RecoversOneMap(files: Files, x: map<Key, Bytes>, y: map<Key, Bytes>)
    requires Recovers(files, x) && Recovers(files, y)
    ensures x == y
  {
    hide FileHolds, Meaning;
    var ps, ls :| DirHolds(files, ps, ls) && Meaning(ls) == x;
    var qs, ms :| DirHolds(files, qs, ms) && Meaning(ms) == y;
    SortedPathsUnique(ps, qs);
    forall i | 0 <= i < |ls|
      ensures ls[i] == ms[i]
    {
      FileHoldsOneLayer(files[ps[i]], ls[i], ms[i]);
    }
    assert ls == ms;
  }

  // ---------------------------------------------------------------- one life

  /**
   * A life of a store: opened on the map `start`, it ran `done` of the operations `ops`, the first
   * `good` of them successfully, and crashed leaving the disk in `left`.
   */
  datatype Life = Life(start: map<Key, Bytes>, ops: seq<StoreOp>, done: nat, good: nat, ledger: Ledger,
                       from: nat, trace: seq<Files>, files: Files, left: Files)

  /** The crash came between operations, or at any disk state that the last of them wrote. */
  ghost predicate CrashedAt(l: Life) {
    l.left == l.files ||
    (0 < l.done < |l.ledger.ends| && exists t :: l.ledger.ends[l.done - 1] <= t < |l.trace| && l.left == l.trace[t])
  }

  ghost predicate Lived(l: Life) {
    && Accounts(l.ledger, l.start, l.start, l.ops, l.done, l.good, l.from, l.trace, l.files)
    && CrashedAt(l)
  }

  /** `d` operations are what survives of the life: no fewer than any successful flush or compaction. */
  ghost predicate Survives(l: Life, d: nat) {
    && d <= l.done <= |l.ops|
    && Recovers(l.left, ModelAfter(l.start, l.ops[..d]))
    && forall k :: 0 <= k < l.done && k < l.good && MakesDurable(l.ops[k]) ==> k < d
  }

  lemma CrashKeepsPrefix(l: Life) returns (d: nat)
    requires Lived(l)
    ensures Survives(l, d)
  {
    hide Recovers, ModelAfter, MakesDurable;
    var a, n := l.ledger, l.done;
    if l.left == l.files {
      d := a.kept[n];
      assert DiskHolds(a, l.start, l.start, l.ops, n);
      if d == 0 { StartIsEmptyPrefix(l.start, l.ops); }
      forall k | 0 <= k < n && k < l.good && MakesDurable(l.ops[k])
        ensures k < d
      {
        assert StepShape(a, l.ops, k, l.good);
        Ascends(a, l.ops, n, l.good, k + 1, n);
      }
    } else {
      var t :| a.ends[n - 1] <= t < |l.trace| && l.left == l.trace[t];
      assert StepWrites(a, l.start, l.ops, l.trace, n - 1);
      d := n;
    }
  }

  lemma StartIsEmptyPrefix(start: map<Key, Bytes>, ops: seq<StoreOp>)
    ensures ModelAfter(start, ops[..0]) == start
  {
  }

  // ---------------------------------------------------------------- many lives

  /** Each life reopens what the crash before it left. */
  ghost predicate Reincarnates(lives: seq<Life>) {
    && (forall i :: 0 <= i < |lives| ==> Lived(lives[i]))
    && (forall i :: 0 < i < |lives| ==> Recovers(lives[i - 1].left, lives[i].start))
  }

  /** The operations that survive `n` lives, in order. */
  ghost function Surviving(lives: seq<Life>, kept: seq<nat>, n: nat): seq<StoreOp>
    requires n <= |lives| == |kept| && forall i :: 0 <= i < |lives| ==> kept[i] <= |lives[i].ops|
  {
    if n == 0 then [] else Surviving(lives, kept, n - 1) + lives[n - 1].ops[..kept[n - 1]]
  }

  ghost predicate AllSurvive(lives: seq<Life>, kept: seq<nat>) {
    |kept| == |lives| && forall i :: 0 <= i < |lives| ==> Survives(lives[i], kept[i])
  }

  lemma {:induction false} ModelAppend(m: map<Key, Bytes>, a: seq<StoreOp>, b: seq<StoreOp>)
    ensures ModelAfter(m, a + b) == ModelAfter(ModelAfter(m, a), b)
    decreases |b|
  {
    hide ModelStep;
    if b == [] {
      assert a + b == a;
    } else {
      var n := |b| - 1;
      assert (a + b)[..|a + b| - 1] == a + b[..n];
      ModelAppend(m, a, b[..n]);
    }
  }

  lemma {:induction false} PrefixesSurvive(lives: seq<Life>, n: nat) returns (kept: seq<nat>)
    requires Reincarnates(lives) && n <= |lives|
    ensures AllSurvive(lives[..n], kept)
    decreases n
  {
    hide Lived, Survives, Recovers;
    if n == 0 {
      kept := [];
    } else {
      var before := PrefixesSurvive(lives, n - 1);
      var d := CrashKeepsPrefix(lives[n - 1]);
      kept := before + [d];
      forall i | 0 <= i < n
        ensures Survives(lives[..n][i], kept[i])
      {
        if i < n - 1 { assert lives[..n - 1][i] == lives[i]; }
      }
    }
  }

  /**
   * Over any number of crashes: each life loses at most a suffix of its operations, never one up to a
   * successful flush or compaction, and every reopening holds exactly what all surviving operations
   * make of the first map.
   */
  lemma CrashesLoseOnlySuffixes(lives: seq<Life>) returns (kept: seq<nat>)
    requires Reincarnates(lives)
    ensures AllSurvive(lives, kept)
    ensures forall i :: 0 <= i < |lives| ==> kept[i] <= |lives[i].ops|
    ensures forall j :: 0 <= j < |lives| ==> lives[j].start == ModelAfter(lives[0].start, Surviving(lives, kept, j))
    ensures lives != [] ==> Recovers(lives[|lives| - 1].left, ModelAfter(lives[0].start, Surviving(lives, kept, |lives|)))
  {
    hide Lived, Recovers;
    kept := PrefixesSurvive(lives, |lives|);
    assert lives[..|lives|] == lives;
    Within(lives, kept);
    hide Survives, Reincarnates, AllSurvive, Surviving, ModelAfter;
    forall j | 0 <= j < |lives|
      ensures lives[j].start == ModelAfter(lives[0].start, Surviving(lives, kept, j))
    {
      StartsSurvive(lives, kept, j);
    }
    if lives != [] { NextStart(lives, kept, |lives| - 1); }
  }

  lemma {:induction false} StartsSurvive(lives: seq<Life>, kept: seq<nat>, j: nat)
    requires Reincarnates(lives) && AllSurvive(lives, kept) && j < |lives| == |kept|
    requires forall i :: 0 <= i < |lives| ==> kept[i] <= |lives[i].ops|
    ensures lives[j].start == ModelAfter(lives[0].start, Surviving(lives, kept, j))
    decreases j
  {
    hide Reincarnates, AllSurvive, Surviving, ModelAfter;
    if j > 0 {
      StartsSurvive(lives, kept, j - 1);
      NextStart(lives, kept, j - 1);
    } else {
      NothingBefore(lives, kept);
    }
  }

  lemma NothingBefore(lives: seq<Life>, kept: seq<nat>)
    requires |lives| == |kept| > 0 && forall i :: 0 <= i < |lives| ==> kept[i] <= |lives[i].ops|
    ensures ModelAfter(lives[0].start, Surviving(lives, kept, 0)) == lives[0].start
  {
  }

  lemma Within(lives: seq<Life>, kept: seq<nat>)
    requires AllSurvive(lives, kept)
    ensures forall i :: 0 <= i < |lives| ==> kept[i] <= |lives[i].ops|
  {
    hide Recovers, ModelAfter;
    forall i | 0 <= i < |lives|
      ensures kept[i] <= |lives[i].ops|
    {
      assert Survives(lives[i], kept[i]);
    }
  }

  lemma NextStart(lives: seq<Life>, kept: seq<nat>, j: nat)
    requires Reincarnates(lives) && AllSurvive(lives, kept) && j < |lives|
    requires forall i :: 0 <= i < |lives| ==> kept[i] <= |lives[i].ops|
    requires lives[j].start == ModelAfter(lives[0].start, Surviving(lives, kept, j))
    ensures var now := ModelAfter(lives[0].start, Surviving(lives, kept, j + 1));
            Recovers(lives[j].left, now) && (j + 1 < |lives| ==> lives[j + 1].start == now)
  {
    hide Lived, Recovers, ModelAfter;
    assert Survives(lives[j], kept[j]);
    ModelAppend(lives[0].start, Surviving(lives, kept, j), lives[j].ops[..kept[j]]);
    if j + 1 < |lives| {
      assert Recovers(lives[j + 1 - 1].left, lives[j + 1].start);
      RecoversOneMap(lives[j].left, lives[j + 1].start, ModelAfter(lives[0].start, Surviving(lives, kept, j + 1)));
    }
  }

  /** A life as the code lives it: open the directory, then run the operations until one fails; then the crash. */
  method OneLife(dir: Directory, bufferLimit: nat, cacheCap: nat, ops: seq<StoreOp>, ghost start: map<Key, Bytes>)
    returns (r: IoResult<()>, ghost life: Life)
    requires bufferLimit <= MAX_RECORDS && Recovers(dir.files, start)
    requires (forall i :: 0 <= i < |ops| ==> FitsOp(ops[i])) && |start.Keys| + |ops| <= MAX_RECORDS
    modifies dir
    ensures life.start == start && life.ops == ops && life.done <= |ops|
    ensures r.Ok? ==> life.done == life.good == |ops|
    ensures r.Err? ==> life.done == life.good + 1
    ensures life.from == |old(dir.trace)| && life.trace == dir.trace && life.files == life.left == dir.files
    ensures forall left :: CrashedAt(life.(left := left)) ==> Lived(life.(left := left))
  {
    hide Recovers, Accounts, HuskStore.Valid, HuskStore.View, HuskStore.Durable;
    var store := Open(dir, bufferLimit, cacheCap, start);
    var answers;
    ghost var ledger;
    r, answers, ledger := Run(store.value, ops);
    life := Life(start, ops, |answers|, if r.Ok? then |answers| else |answers| - 1, ledger, |old(dir.trace)|, dir.trace, dir.files, dir.files);
  }
}
