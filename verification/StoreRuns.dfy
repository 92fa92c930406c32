/** Whole streams of store operations, against a last-write-wins map and against a crash at any point. */
module StoreRuns {
  import opened Results
  import opened Keys
  import opened SegmentFile
  import opened SegmentRoundTrip
  import opened ReadCache
  import opened Layers
  import opened HuskStores

  datatype StoreOp =
    | PutOp(key: Key, value: Bytes)
    | DeleteOp(key: Key)
    | GetOp(key: Key)
    | FlushOp
    | CompactOp

  predicate FitsOp(op: StoreOp) {
    match op
    case PutOp(k, v) => FitsSlot(k, Some(v))
    case DeleteOp(k) => FitsSlot(k, None)
    case _ => true
  }

  /** A last-write-wins map under the same operations. */
  ghost function ModelStep(m: map<Key, Bytes>, op: StoreOp): map<Key, Bytes> {
    match op
    case PutOp(k, v) => m[k := v]
    case DeleteOp(k) => m - {k}
    case _ => m
  }

  ghost function ModelAfter(m: map<Key, Bytes>, ops: seq<StoreOp>): map<Key, Bytes> {
    if ops == [] then m else ModelStep(ModelAfter(m, ops[..|ops| - 1]), ops[|ops| - 1])
  }

  /** What the model answers at step `i`; only a get answers. */
  ghost function ModelAnswer(m: map<Key, Bytes>, ops: seq<StoreOp>, i: nat): Option<Bytes>
    requires i < |ops|
  {
    var now := ModelAfter(m, ops[..i]);
    match ops[i]
    case GetOp(k) => if k in now then Some(now[k]) else None
    case _ => None
  }

  lemma ModelStepSize(m: map<Key, Bytes>, op: StoreOp)
    ensures |ModelStep(m, op).Keys| <= |m.Keys| + 1
  {
    match op
    case PutOp(k, v) => assert m[k := v].Keys == m.Keys + {k};
    case DeleteOp(k) => assert (m - {k}).Keys == m.Keys - {k};
    case _ =>
  }

  method Step(s: HuskStore, op: StoreOp) returns (r: IoResult<()>, answer: Option<Bytes>)
    requires s.Settled() && FitsOp(op) && |s.View().Keys| <= MAX_RECORDS
    modifies s, s.dir, s.cache
    ensures s.Valid() && s.View() == ModelStep(old(s.View()), op)
    ensures r.Ok? ==> s.Settled()
    ensures r.Ok? && op.GetOp? ==>
              answer == if op.key in old(s.View()) then Some(old(s.View())[op.key]) else None
    ensures !op.GetOp? ==> answer == None
    ensures s.Durable() == old(s.Durable()) || s.Durable() == s.View()
    ensures r.Ok? && MakesDurable(op) ==> s.Durable() == s.View()
    ensures old(s.dir.trace) <= s.dir.trace
    ensures forall t :: |old(s.dir.trace)| <= t < |s.dir.trace| ==> Recovers(s.dir.trace[t], s.View())
  {
    hide FitsLayer, OnDisk, Live, CacheFresh, Recovers, Stacked, FitsSlot;
    answer := None;
    match op {
      case PutOp(k, v) => r := s.Put(k, v);
      case DeleteOp(k) => r := s.Delete(k);
      case FlushOp => r := s.Flush();
      case CompactOp => r := s.Compact();
      case GetOp(k) =>
        var got := s.Get(k);
        answer := got.value;
        r := Ok(());
    }
  }

  // ---------------------------------------------------------------- what a crash can cost

  predicate MakesDurable(op: StoreOp) {
    op.FlushOp? || op.CompactOp?
  }

  /** What the disk stands for after some step: `d` operations of the stream, or still what was durable at its start. */
  ghost function Kept(first: map<Key, Bytes>, start: map<Key, Bytes>, ops: seq<StoreOp>, d: nat): map<Key, Bytes>
    requires d <= |ops|
  {
    if d == 0 then first else ModelAfter(start, ops[..d])
  }

  /**
   * A run's account: after each number of steps, the disk, how many operations it keeps, and how
   * long the trace of disk states is.
   */
  datatype Ledger = Ledger(disks: seq<Files>, kept: seq<nat>, ends: seq<nat>)

  /** Step `k` loses nothing that was durable, and makes everything durable when it is a successful flush or compaction. */
  ghost predicate StepShape(l: Ledger, ops: seq<StoreOp>, k: nat, good: nat)
    requires k + 1 < |l.kept| && k + 1 < |l.ends| && k < |ops|
  {
    && l.kept[k] <= l.kept[k + 1] <= k + 1 && l.ends[k] <= l.ends[k + 1]
    && (k < good && MakesDurable(ops[k]) ==> l.kept[k + 1] == k + 1)
  }

  /** `n` steps accounted for, the first `good` of them successful. */
  ghost predicate Shaped(l: Ledger, ops: seq<StoreOp>, n: nat, good: nat) {
    && n <= |ops|
    && |l.disks| == |l.kept| == |l.ends| == n + 1
    && (forall k :: 0 <= k <= n ==> l.kept[k] <= k)
    && (forall k :: 0 <= k < n ==> StepShape(l, ops, k, good))
  }

  /** After `k` steps the disk recovers the operations it is said to keep. */
  ghost predicate DiskHolds(l: Ledger, first: map<Key, Bytes>, start: map<Key, Bytes>, ops: seq<StoreOp>, k: nat)
    requires k < |l.disks| && k < |l.kept| && l.kept[k] <= |ops|
  {
    Recovers(l.disks[k], Kept(first, start, ops, l.kept[k]))
  }

  /** Every disk state written during step `k` recovers the first `k + 1` operations. */
  ghost predicate StepWrites(l: Ledger, start: map<Key, Bytes>, ops: seq<StoreOp>, trace: seq<Files>, k: nat)
    requires k + 1 < |l.ends| && k < |ops|
  {
    forall t :: l.ends[k] <= t < l.ends[k + 1] && t < |trace| ==> Recovers(trace[t], ModelAfter(start, ops[..k + 1]))
  }

  ghost predicate Accounts(l: Ledger, first: map<Key, Bytes>, start: map<Key, Bytes>, ops: seq<StoreOp>, n: nat, good: nat,
                           from: nat, trace: seq<Files>, files: Files) {
    && Shaped(l, ops, n, good)
    && l.ends[0] == from && l.ends[n] == |trace| && l.disks[n] == files
    && (forall k :: 0 <= k <= n ==> DiskHolds(l, first, start, ops, k))
    && (forall k :: 0 <= k < n ==> StepWrites(l, start, ops, trace, k))
  }

  /** One more step, with what it wrote and what the disk now keeps. */
  lemma AccountsExtend(l: Ledger, first: map<Key, Bytes>, start: map<Key, Bytes>, ops: seq<StoreOp>, n: nat, good: nat,
                       from: nat, trace: seq<Files>, files: Files, after: seq<Files>, now: Files, d: nat) returns (m: Ledger)
    requires Accounts(l, first, start, ops, n, n, from, trace, files) && n < |ops| && n <= good <= n + 1
    requires trace <= after && l.kept[n] <= d <= n + 1 && (good == n + 1 && MakesDurable(ops[n]) ==> d == n + 1)
    requires Recovers(now, Kept(first, start, ops, d))
    requires forall t :: |trace| <= t < |after| ==> Recovers(after[t], ModelAfter(start, ops[..n + 1]))
    ensures Accounts(m, first, start, ops, n + 1, good, from, after, now)
    ensures |m.kept| == n + 2 && m.kept[n + 1] == d
  {
    hide Recovers, ModelAfter, DiskHolds, StepWrites, Kept, MakesDurable, StepShape;
    m := Ledger(l.disks + [now], l.kept + [d], l.ends + [|after|]);
    forall k | 0 <= k < n + 1
      ensures StepShape(m, ops, k, good)
    {
      ShapeExtends(l, m, ops, k, n, good);
    }
    forall k | 0 <= k < n + 1
      ensures StepWrites(m, start, ops, after, k)
    {
      if k < n { Ascends(l, ops, n, n, k + 1, n); }
      WritesExtend(l, m, start, ops, trace, after, k, n);
    }
    forall k | 0 <= k <= n + 1
      ensures DiskHolds(m, first, start, ops, k)
    {
      if k <= n { HoldsExtend(l, m, first, start, ops, k); } else { HoldsNow(m, first, start, ops, k); }
    }
  }

  lemma ShapeExtends(l: Ledger, m: Ledger, ops: seq<StoreOp>, k: nat, n: nat, good: nat)
    requires n < |ops| && |l.kept| == |l.ends| == n + 1 && |m.kept| == |m.ends| == n + 2 && k <= n <= good
    requires l.kept == m.kept[..n + 1] && l.ends == m.ends[..n + 1]
    requires k < n ==> StepShape(l, ops, k, n)
    requires k == n ==> StepShape(m, ops, n, good)
    ensures StepShape(m, ops, k, good)
  {
  }

  lemma WritesExtend(l: Ledger, m: Ledger, start: map<Key, Bytes>, ops: seq<StoreOp>, trace: seq<Files>, after: seq<Files>,
                     k: nat, n: nat)
    requires n < |ops| && |l.ends| == n + 1 && |m.ends| == n + 2 && k <= n && l.ends == m.ends[..n + 1]
    requires trace <= after && l.ends[n] == |trace|
    requires k < n ==> l.ends[k + 1] <= l.ends[n] && StepWrites(l, start, ops, trace, k)
    requires forall t :: |trace| <= t < |after| ==> Recovers(after[t], ModelAfter(start, ops[..n + 1]))
    ensures StepWrites(m, start, ops, after, k)
  {
    hide Recovers, ModelAfter;
  }

  lemma HoldsExtend(l: Ledger, m: Ledger, first: map<Key, Bytes>, start: map<Key, Bytes>, ops: seq<StoreOp>, k: nat)
    requires k < |l.disks| < |m.disks| && k < |l.kept| < |m.kept| && l.kept[k] <= |ops|
    requires l.disks == m.disks[..|l.disks|] && l.kept == m.kept[..|l.kept|]
    requires DiskHolds(l, first, start, ops, k)
    ensures DiskHolds(m, first, start, ops, k)
  {
    hide Recovers, Kept;
  }

  lemma HoldsNow(m: Ledger, first: map<Key, Bytes>, start: map<Key, Bytes>, ops: seq<StoreOp>, k: nat)
    requires k < |m.disks| && k < |m.kept| && m.kept[k] <= |ops|
    requires Recovers(m.disks[k], Kept(first, start, ops, m.kept[k]))
    ensures DiskHolds(m, first, start, ops, k)
  {
    hide Recovers, Kept;
  }

  /** The trace grows and nothing durable is lost, from any step to any later one. */
  lemma {:induction false} Ascends(l: Ledger, ops: seq<StoreOp>, n: nat, good: nat, i: nat, j: nat)
    requires Shaped(l, ops, n, good) && i <= j <= n
    ensures l.ends[i] <= l.ends[j] && l.kept[i] <= l.kept[j]
    decreases j
  {
    hide MakesDurable;
    if i < j {
      Ascends(l, ops, n, good, i, j - 1);
      assert StepShape(l, ops, j - 1, good);
    }
  }

  /** The operations that a disk state `t` of the trace recovers, at or after step `k`: more than `k`. */
  ghost predicate RecoversBeyond(start: map<Key, Bytes>, ops: seq<StoreOp>, state: Files, k: nat) {
    exists d :: k < d <= |ops| && Recovers(state, ModelAfter(start, ops[..d]))
  }

  /**
   * What a successful flush or compaction at step `k` made durable is never lost: between later
   * steps, and at every disk state written later, a crash recovers the stream at least to step `k`.
   */
  lemma FlushedIsNeverLost(l: Ledger, first: map<Key, Bytes>, start: map<Key, Bytes>, ops: seq<StoreOp>, n: nat, good: nat,
                           from: nat, trace: seq<Files>, files: Files, k: nat)
    requires Accounts(l, first, start, ops, n, good, from, trace, files)
    requires k < n && k < good && MakesDurable(ops[k])
    ensures forall j :: k < j <= n ==> RecoversBeyond(start, ops, l.disks[j], k)
    ensures forall t :: l.ends[k + 1] <= t < |trace| ==> RecoversBeyond(start, ops, trace[t], k)
  {
    hide Recovers, ModelAfter;
    assert StepShape(l, ops, k, good);
    forall j | k < j <= n
      ensures RecoversBeyond(start, ops, l.disks[j], k)
    {
      Ascends(l, ops, n, good, k + 1, j);
      assert DiskHolds(l, first, start, ops, j) && l.kept[j] >= l.kept[k + 1];
    }
    forall t | l.ends[k + 1] <= t < |trace|
      ensures RecoversBeyond(start, ops, trace[t], k)
    {
      var s := WrittenAt(l, ops, n, good, k + 1, t);
      assert StepWrites(l, start, ops, trace, s);
    }
  }

  lemma WrittenAt(l: Ledger, ops: seq<StoreOp>, n: nat, good: nat, from: nat, t: nat) returns (s: nat)
    requires Shaped(l, ops, n, good) && from <= n && l.ends[from] <= t < l.ends[n]
    ensures from <= s < n && l.ends[s] <= t < l.ends[s + 1]
    decreases n - from
  {
    hide StepShape;
    if t < l.ends[from + 1] { s := from; } else { s := WrittenAt(l, ops, n, good, from + 1, t); }
  }

  /**
   * Over every stream of operations the store is a last-write-wins map: same answers, same final
   * contents. The ledger accounts for every disk state on the way, also when a step fails: each
   * recovers the stream to a point that never moves back, and past every successful flush or compaction.
   */
  method Run(s: HuskStore, ops: seq<StoreOp>) returns (r: IoResult<()>, answers: seq<Option<Bytes>>, ghost ledger: Ledger)
    requires s.Settled() && forall i :: 0 <= i < |ops| ==> FitsOp(ops[i])
    requires |s.View().Keys| + |ops| <= MAX_RECORDS
    modifies s, s.dir, s.cache
    ensures r.Ok? ==> s.Settled() && s.View() == ModelAfter(old(s.View()), ops)
    ensures r.Ok? ==> |answers| == |ops| && forall i :: 0 <= i < |ops| ==> answers[i] == ModelAnswer(old(s.View()), ops, i)
    ensures 0 < |answers| <= |ops| || r.Ok?
    ensures old(s.dir.trace) <= s.dir.trace
    ensures Accounts(ledger, old(s.Durable()), old(s.View()), ops, |answers|, if r.Ok? then |answers| else |answers| - 1,
                     |old(s.dir.trace)|, s.dir.trace, s.dir.files)
  {
    hide HuskStore.Valid, Recovers, ModelStep, FitsOp, HuskStore.View, HuskStore.Durable, Accounts, MakesDurable;
    answers := [];
    ghost var start, first := s.View(), s.Durable();
    DiskRecovers(s);
    ledger := OpenLedger(first, start, ops, s.dir.trace, s.dir.files);
    for i := 0 to |ops|
      invariant s.Settled() && s.View() == ModelAfter(start, ops[..i])
      invariant |s.View().Keys| <= |start.Keys| + i
      invariant |answers| == i && forall j :: 0 <= j < i ==> answers[j] == ModelAnswer(start, ops, j)
      invariant old(s.dir.trace) <= s.dir.trace
      invariant Accounts(ledger, first, start, ops, i, i, |old(s.dir.trace)|, s.dir.trace, s.dir.files)
      invariant |ledger.kept| == i + 1 && ledger.kept[i] <= i && s.Durable() == Kept(first, start, ops, ledger.kept[i])
    {
      ModelStepSize(s.View(), ops[i]);
      assert ops[..i + 1][..i] == ops[..i];
      ghost var trace, files := s.dir.trace, s.dir.files;
      var done, answer := Step(s, ops[i]);
      answers := answers + [answer];
      assert s.View() == ModelAfter(start, ops[..i + 1]);
      DiskRecovers(s);
      ghost var d := if s.Durable() == s.View() then i + 1 else ledger.kept[i];
      assert s.Durable() == Kept(first, start, ops, d);
      ledger := AccountsExtend(ledger, first, start, ops, i, if done.Ok? then i + 1 else i, |old(s.dir.trace)|, trace, files,
                               s.dir.trace, s.dir.files, d);
      AccountsShape(ledger, first, start, ops, i + 1, if done.Ok? then i + 1 else i, |old(s.dir.trace)|, s.dir.trace, s.dir.files);
      if done.Err? {
        return done, answers, ledger;
      }
    }
    assert ops[..|ops|] == ops;
    return Ok(()), answers, ledger;
  }

  lemma OpenLedger(first: map<Key, Bytes>, start: map<Key, Bytes>, ops: seq<StoreOp>, trace: seq<Files>, files: Files) returns (l: Ledger)
    requires Recovers(files, first)
    ensures Accounts(l, first, start, ops, 0, 0, |trace|, trace, files) && l.kept == [0]
  {
    hide Recovers;
    l := Ledger([files], [0], [|trace|]);
    assert DiskHolds(l, first, start, ops, 0);
  }

  lemma AccountsShape(l: Ledger, first: map<Key, Bytes>, start: map<Key, Bytes>, ops: seq<StoreOp>, n: nat, good: nat,
                      from: nat, trace: seq<Files>, files: Files)
    requires Accounts(l, first, start, ops, n, good, from, trace, files)
    ensures |l.kept| == n + 1 && l.kept[n] <= n
  {
    hide DiskHolds, StepWrites;
  }
}
