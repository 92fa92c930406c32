/** When two runs of a log show the same memories: live against replay, and replay from a snapshot against replay from the start. */
module ReplayExactness {
  import opened Results
  import opened Keys
  import opened Replay

  // ---------------------------------------------------------------- the log alone

  /** Whether ingests await resolution after `ops`: an ingest, then edits only. Read off the log alone. */
  predicate PendingIngest(ops: seq<Op>) {
    ops != [] &&
    match ops[|ops| - 1]
    case Ingest(_, _) => true
    case Retune(_) => PendingIngest(ops[..|ops| - 1])
    case Assert(_, _, _, _) => PendingIngest(ops[..|ops| - 1])
    case _ => false
  }

  lemma FailAllKeepsPending<B, F, E>(k: Kernel<B, F, E>, m: Memory<B, F, E>, files: seq<Text>, depth: nat)
    ensures FailAll(k, m, files, depth).pending == m.pending && FailAll(k, m, files, depth).refs == m.refs
  {
  }

  /** What failure pressure does to a memory, its references left out of account. */
  lemma {:induction false} FailAllShows<B, F, E>(k: Kernel<B, F, E>, m: Memory<B, F, E>, l: Memory<B, F, E>, files: seq<Text>, depth: nat)
    requires SnapshotOf(m) == SnapshotOf(l)
    ensures SnapshotOf(FailAll(k, m, files, depth)) == SnapshotOf(FailAll(k, l, files, depth))
  {
    if files != [] { FailAllShows(k, m, l, files[..|files| - 1], depth); }
  }

  /** The replay's flag, the memory's own, and the log say the same. */
  lemma {:induction false} DirtyIsPending<B, F, E>(k: Kernel<B, F, E>, m: Memory<B, F, E>, ops: seq<Op>)
    requires !m.pending
    ensures var r := ApplyAll(k, Replaying(m, false), ops);
            r.dirty == r.m.pending == PendingIngest(ops)
  {
    if ops != [] {
      var n := |ops| - 1;
      DirtyIsPending(k, m, ops[..n]);
      var r := Settle(k, ApplyAll(k, Replaying(m, false), ops[..n]));
      match ops[n]
      case PageFault(files, depth) => FailAllKeepsPending(k, r.m, files, depth);
      case _ =>
    }
  }

  lemma ReplayIsSettled<B, F, E>(k: Kernel<B, F, E>, m: Memory<B, F, E>, ops: seq<Op>)
    requires !m.pending
    ensures !Replayed(k, m, ops).pending
  {
    hide ApplyAll;
    DirtyIsPending(k, m, ops);
  }

  lemma {:induction false} LiveIsSettled<B, F, E>(k: Kernel<B, F, E>, m: Memory<B, F, E>, ops: seq<Op>)
    requires !m.pending
    ensures !Live(k, m, ops).pending
  {
    if ops != [] {
      var n := |ops| - 1;
      LiveIsSettled(k, m, ops[..n]);
      LiveStepIsSettled(k, Live(k, m, ops[..n]), ops[n]);
    }
  }

  lemma LiveStepIsSettled<B, F, E>(k: Kernel<B, F, E>, m: Memory<B, F, E>, op: Op)
    requires !m.pending
    ensures !LiveStep(k, m, op).pending
  {
    match op
    case PageFault(files, depth) => FailAllKeepsPending(k, m, files, depth);
    case _ =>
  }

  // ---------------------------------------------------------------- two runs side by side

  /** One op: deferred, or resolved at once. */
  function StepOf<B, F, E>(k: Kernel<B, F, E>, r: Replaying<B, F, E>, eager: bool, op: Op): Replaying<B, F, E> {
    if eager then Settle(k, ApplyOp(k, r, op)) else ApplyOp(k, r, op)
  }

  function RunOf<B, F, E>(k: Kernel<B, F, E>, r: Replaying<B, F, E>, eager: bool, ops: seq<Op>): Replaying<B, F, E> {
    if ops == [] then r
    else StepOf(k, RunOf(k, r, eager, ops[..|ops| - 1]), eager, ops[|ops| - 1])
  }

  /** What a reader of the run would see now. */
  function Shown<B, F, E>(k: Kernel<B, F, E>, r: Replaying<B, F, E>): Snapshot<B, E> {
    SnapshotOf(Settle(k, r).m)
  }

  predicate Steady<B, F, E>(r: Replaying<B, F, E>) {
    r.dirty == r.m.pending
  }

  /** The two runs show the same memory; which references they hold may differ. */
  ghost predicate Alike<B, F, E>(k: Kernel<B, F, E>, c: Replaying<B, F, E>, w: Replaying<B, F, E>) {
    Steady(c) && Steady(w) && Shown(k, c) == Shown(k, w)
  }

  /** The edges a reader would see after an edit: an edit leaves them until a resolution that is due rebuilds them. */
  function EditedEdges<B, F, E>(k: Kernel<B, F, E>, r: Replaying<B, F, E>, op: Op): set<E>
    requires IsEdit(op)
  {
    if r.dirty then Redo(k, EditBase(k, r.m.base, op), r.m.refs, r.m.edges) else r.m.edges
  }

  /**
   * What keeps two runs that show the same memory alike over `op`: an ingest resolves to the same
   * edges with the references of either run, and an edit made while either has a resolution due
   * leaves both with the same edges. Nothing else can tell them apart.
   */
  ghost predicate StepAgrees<B, F, E>(k: Kernel<B, F, E>, c: Replaying<B, F, E>, w: Replaying<B, F, E>, op: Op) {
    match op
    case Ingest(uri, source) =>
      var b := w.m.base;
      var kept := KeptEdges(k, b, Settle(k, w).m.edges, uri, source);
      var after := k.ingestBase(b, uri, source);
      Redo(k, after, IngestRefs(k, b, c.m.refs, uri, source), kept) == Redo(k, after, IngestRefs(k, b, w.m.refs, uri, source), kept)
    case Retune(_) => c.dirty || w.dirty ==> EditedEdges(k, c, op) == EditedEdges(k, w, op)
    case Assert(_, _, _, _) => c.dirty || w.dirty ==> EditedEdges(k, c, op) == EditedEdges(k, w, op)
    case _ => true
  }

  lemma IngestEdges<B, F, E>(k: Kernel<B, F, E>, r: Replaying<B, F, E>, uri: Text, source: Text)
    requires Steady(r)
    ensures var b := r.m.base;
            var kept := KeptEdges(k, b, Settle(k, r).m.edges, uri, source);
            var after := k.ingestBase(b, uri, source);
            Shown(k, ApplyOp(k, r, Ingest(uri, source))) == Snapshot(after, Redo(k, after, IngestRefs(k, b, r.m.refs, uri, source), kept))
  {
    hide Redo, KeptEdges, IngestRefs;
    RedoAbsorbs(k, r.m.base, r.m.refs, r.m.edges, uri, source, k.ingestBase(r.m.base, uri, source));
  }

  /** Two runs stay alike over an op exactly if the step agrees. */
  lemma AlikeStep<B, F, E>(k: Kernel<B, F, E>, c: Replaying<B, F, E>, w: Replaying<B, F, E>, eager: bool, op: Op)
    requires Alike(k, c, w)
    ensures Steady(ApplyOp(k, c, op)) && Steady(StepOf(k, w, eager, op))
    ensures Shown(k, ApplyOp(k, c, op)) == Shown(k, StepOf(k, w, eager, op)) <==> StepAgrees(k, c, w, op)
  {
    hide Redo, KeptEdges, IngestRefs;
    match op
    case Ingest(uri, source) =>
      IngestEdges(k, c, uri, source);
      IngestEdges(k, w, uri, source);
    case PageFault(files, depth) =>
      FailAllKeepsPending(k, Settle(k, c).m, files, depth);
      FailAllKeepsPending(k, Settle(k, w).m, files, depth);
      FailAllShows(k, Settle(k, c).m, Settle(k, w).m, files, depth);
    case _ =>
  }

  /** Every step of `ops` agrees. */
  ghost predicate Agree<B, F, E>(k: Kernel<B, F, E>, c: Replaying<B, F, E>, w: Replaying<B, F, E>, eager: bool, ops: seq<Op>) {
    ops == [] ||
    var n := |ops| - 1;
    Agree(k, c, w, eager, ops[..n]) && StepAgrees(k, ApplyAll(k, c, ops[..n]), RunOf(k, w, eager, ops[..n]), ops[n])
  }

  /** At every point of `ops` the two runs show the same memory. */
  ghost predicate ShowTheSame<B, F, E>(k: Kernel<B, F, E>, c: Replaying<B, F, E>, w: Replaying<B, F, E>, eager: bool, ops: seq<Op>) {
    forall n :: 0 <= n <= |ops| ==> Shown(k, ApplyAll(k, c, ops[..n])) == Shown(k, RunOf(k, w, eager, ops[..n]))
  }

  lemma {:induction false} AgreeKeepsAlike<B, F, E>(k: Kernel<B, F, E>, c: Replaying<B, F, E>, w: Replaying<B, F, E>, eager: bool, ops: seq<Op>)
    requires Alike(k, c, w) && Agree(k, c, w, eager, ops)
    ensures Alike(k, ApplyAll(k, c, ops), RunOf(k, w, eager, ops))
  {
    hide StepAgrees, Shown, Steady, ApplyOp, StepOf;
    if ops != [] {
      var n := |ops| - 1;
      AgreeKeepsAlike(k, c, w, eager, ops[..n]);
      AlikeStep(k, ApplyAll(k, c, ops[..n]), RunOf(k, w, eager, ops[..n]), eager, ops[n]);
    }
  }

  lemma AgreePrefix<B, F, E>(k: Kernel<B, F, E>, c: Replaying<B, F, E>, w: Replaying<B, F, E>, eager: bool, ops: seq<Op>, n: nat)
    requires Agree(k, c, w, eager, ops) && n <= |ops|
    ensures Agree(k, c, w, eager, ops[..n])
  {
    hide StepAgrees;
    if n < |ops| {
      AgreePrefix(k, c, w, eager, ops[..|ops| - 1], n);
      assert ops[..|ops| - 1][..n] == ops[..n];
    } else {
      assert ops[..n] == ops;
    }
  }

  /** Two runs that start alike show the same memories throughout if and only if every step agrees. */
  lemma {:induction false} AgreeExactly<B, F, E>(k: Kernel<B, F, E>, c: Replaying<B, F, E>, w: Replaying<B, F, E>, eager: bool, ops: seq<Op>)
    requires Alike(k, c, w)
    ensures ShowTheSame(k, c, w, eager, ops) <==> Agree(k, c, w, eager, ops)
  {
    hide StepAgrees, Shown, Steady, ApplyOp, StepOf;
    if Agree(k, c, w, eager, ops) {
      forall n | 0 <= n <= |ops|
        ensures Shown(k, ApplyAll(k, c, ops[..n])) == Shown(k, RunOf(k, w, eager, ops[..n]))
      {
        AgreePrefix(k, c, w, eager, ops, n);
        AgreeKeepsAlike(k, c, w, eager, ops[..n]);
      }
    } else {
      var n := |ops| - 1;
      var front := ops[..n];
      AgreeExactly(k, c, w, eager, front);
      if Agree(k, c, w, eager, front) {
        AgreeKeepsAlike(k, c, w, eager, front);
        AlikeStep(k, ApplyAll(k, c, front), RunOf(k, w, eager, front), eager, ops[n]);
        assert ops[..|ops|] == ops;
      } else {
        var i :| 0 <= i <= n && Shown(k, ApplyAll(k, c, front[..i])) != Shown(k, RunOf(k, w, eager, front[..i]));
        assert front[..i] == ops[..i];
      }
    }
  }

  lemma {:induction false} RunIsLive<B, F, E>(k: Kernel<B, F, E>, m: Memory<B, F, E>, ops: seq<Op>)
    requires !m.pending
    ensures RunOf(k, Replaying(m, false), true, ops) == Replaying(Live(k, m, ops), false)
  {
    hide Redo, KeptEdges, IngestRefs;
    if ops != [] {
      var n := |ops| - 1;
      RunIsLive(k, m, ops[..n]);
      LiveIsSettled(k, m, ops[..n]);
    }
  }

  lemma {:induction false} RunIsReplay<B, F, E>(k: Kernel<B, F, E>, r: Replaying<B, F, E>, ops: seq<Op>)
    ensures RunOf(k, r, false, ops) == ApplyAll(k, r, ops)
  {
    if ops != [] { RunIsReplay(k, r, ops[..|ops| - 1]); }
  }

  // ---------------------------------------------------------------- live against replay

  /** Recording `op` on `m` leaves what a resolution that is due makes of it. */
  ghost predicate Harmless<B, F, E>(k: Kernel<B, F, E>, pending: bool, m: Memory<B, F, E>, op: Op) {
    pending && IsEdit(op) ==> Redo(k, EditBase(k, m.base, op), m.refs, m.edges) == Redo(k, m.base, m.refs, m.edges)
  }

  /** Every edit that the replay of `ops` meets while ingests are pending is harmless. */
  ghost predicate Quiet<B, F, E>(k: Kernel<B, F, E>, m: Memory<B, F, E>, ops: seq<Op>) {
    ops == [] ||
    var n := |ops| - 1;
    Quiet(k, m, ops[..n]) && Harmless(k, PendingIngest(ops[..n]), ApplyAll(k, Replaying(m, false), ops[..n]).m, ops[n])
  }

  /** At every point of the log, replaying up to there is the memory that was live there. */
  ghost predicate ReplaysExactly<B, F, E>(k: Kernel<B, F, E>, m: Memory<B, F, E>, ops: seq<Op>) {
    forall n :: 0 <= n <= |ops| ==> Replayed(k, m, ops[..n]) == Live(k, m, ops[..n])
  }

  /** Runs from one memory hold the same references for as long as they show the same. */
  lemma {:induction false} SameRefs<B, F, E>(k: Kernel<B, F, E>, m: Memory<B, F, E>, ops: seq<Op>)
    requires !m.pending && Agree(k, Replaying(m, false), Replaying(m, false), true, ops)
    ensures ApplyAll(k, Replaying(m, false), ops).m.refs == Live(k, m, ops).refs
  {
    hide StepAgrees, Redo, KeptEdges, IngestRefs;
    if ops != [] {
      var n := |ops| - 1;
      SameRefs(k, m, ops[..n]);
      AgreeKeepsAlike(k, Replaying(m, false), Replaying(m, false), true, ops[..n]);
      RunIsLive(k, m, ops[..n]);
      SameRefsStep(k, ApplyAll(k, Replaying(m, false), ops[..n]), Live(k, m, ops[..n]), ops[n]);
    }
  }

  lemma SameRefsStep<B, F, E>(k: Kernel<B, F, E>, c: Replaying<B, F, E>, l: Memory<B, F, E>, op: Op)
    requires Steady(c) && c.m.base == l.base && c.m.refs == l.refs
    ensures ApplyOp(k, c, op).m.refs == LiveStep(k, l, op).refs
  {
    hide Redo, KeptEdges, IngestRefs;
    match op
    case PageFault(files, depth) =>
      FailAllKeepsPending(k, Settle(k, c).m, files, depth);
      FailAllKeepsPending(k, l, files, depth);
    case _ =>
  }

  /** With the same references, a step agrees with the live one exactly if the op is harmless. */
  lemma HarmlessAgrees<B, F, E>(k: Kernel<B, F, E>, c: Replaying<B, F, E>, l: Memory<B, F, E>, op: Op)
    requires !l.pending && Alike(k, c, Replaying(l, false))
    ensures StepAgrees(k, c, Replaying(l, false), op) ==> Harmless(k, c.dirty, c.m, op)
    ensures c.m.refs == l.refs || IsEdit(op) ==> (StepAgrees(k, c, Replaying(l, false), op) <==> Harmless(k, c.dirty, c.m, op))
  {
    hide Redo, KeptEdges, IngestRefs;
  }

  lemma {:induction false} QuietAgrees<B, F, E>(k: Kernel<B, F, E>, m: Memory<B, F, E>, ops: seq<Op>)
    requires !m.pending
    ensures Agree(k, Replaying(m, false), Replaying(m, false), true, ops) <==> Quiet(k, m, ops)
  {
    hide StepAgrees, Harmless, Shown, ApplyOp, StepOf, LiveStep, PendingIngest;
    if ops != [] {
      var n := |ops| - 1;
      QuietAgrees(k, m, ops[..n]);
      if Quiet(k, m, ops[..n]) {
        AgreeKeepsAlike(k, Replaying(m, false), Replaying(m, false), true, ops[..n]);
        RunIsLive(k, m, ops[..n]);
        LiveIsSettled(k, m, ops[..n]);
        SameRefs(k, m, ops[..n]);
        DirtyIsPending(k, m, ops[..n]);
        HarmlessAgrees(k, ApplyAll(k, Replaying(m, false), ops[..n]), Live(k, m, ops[..n]), ops[n]);
      }
    }
  }

  /** Deferred replay equals live execution at every point of a log if and only if the log is quiet. */
  lemma ReplaysExactlyWhenQuiet<B, F, E>(k: Kernel<B, F, E>, m: Memory<B, F, E>, ops: seq<Op>)
    requires !m.pending
    ensures ReplaysExactly(k, m, ops) <==> Quiet(k, m, ops)
  {
    hide ApplyAll, Live, RunOf, Quiet, Agree, Settle;
    var start := Replaying(m, false);
    QuietAgrees(k, m, ops);
    AgreeExactly(k, start, start, true, ops);
    forall n | 0 <= n <= |ops|
      ensures Shown(k, RunOf(k, start, true, ops[..n])) == SnapshotOf(Live(k, m, ops[..n]))
    {
      RunIsLive(k, m, ops[..n]);
      SettledShows(k, Live(k, m, ops[..n]));
    }
    if Quiet(k, m, ops) {
      forall n | 0 <= n <= |ops|
        ensures Replayed(k, m, ops[..n]) == Live(k, m, ops[..n])
      {
        AgreePrefix(k, start, start, true, ops, n);
        QuietAgrees(k, m, ops[..n]);
        ReplayEqualsLive(k, m, ops[..n]);
      }
    }
  }

  lemma SettledShows<B, F, E>(k: Kernel<B, F, E>, m: Memory<B, F, E>)
    ensures Shown(k, Replaying(m, false)) == SnapshotOf(m)
  {
  }

  lemma SettleKeepsRefs<B, F, E>(k: Kernel<B, F, E>, r: Replaying<B, F, E>)
    ensures Settle(k, r).m.refs == r.m.refs
  {
  }

  /** A quiet log replays to its live memory, references included. */
  lemma ReplayEqualsLive<B, F, E>(k: Kernel<B, F, E>, m: Memory<B, F, E>, ops: seq<Op>)
    requires !m.pending && Quiet(k, m, ops)
    ensures Replayed(k, m, ops) == Live(k, m, ops)
  {
    hide ApplyAll, Live, RunOf, Quiet, Agree, Settle;
    var start := Replaying(m, false);
    QuietAgrees(k, m, ops);
    AgreeKeepsAlike(k, start, start, true, ops);
    RunIsLive(k, m, ops);
    SettledShows(k, Live(k, m, ops));
    SettleKeepsRefs(k, ApplyAll(k, start, ops));
    SameRefs(k, m, ops);
    LiveIsSettled(k, m, ops);
    ReplayIsSettled(k, m, ops);
  }

  lemma QuietPrefix<B, F, E>(k: Kernel<B, F, E>, m: Memory<B, F, E>, ops: seq<Op>, n: nat)
    requires Quiet(k, m, ops) && n <= |ops|
    ensures Quiet(k, m, ops[..n])
  {
    hide Harmless, PendingIngest;
    if n < |ops| {
      QuietPrefix(k, m, ops[..|ops| - 1], n);
      assert ops[..|ops| - 1][..n] == ops[..n];
    } else {
      assert ops[..n] == ops;
    }
  }

  lemma QuietSnoc<B, F, E>(k: Kernel<B, F, E>, m: Memory<B, F, E>, ops: seq<Op>, op: Op)
    ensures Quiet(k, m, ops + [op]) <==>
            Quiet(k, m, ops) && Harmless(k, PendingIngest(ops), ApplyAll(k, Replaying(m, false), ops).m, op)
  {
    hide Harmless, PendingIngest, ApplyAll;
    assert (ops + [op])[..|ops|] == ops;
  }

  // ---------------------------------------------------------------- memories for which every log is quiet

  ghost predicate AllEdits(edits: seq<Op>) {
    forall i :: 0 <= i < |edits| ==> IsEdit(edits[i])
  }

  function EditAll<B, F, E>(k: Kernel<B, F, E>, m: Memory<B, F, E>, edits: seq<Op>): Memory<B, F, E>
    requires forall i :: 0 <= i < |edits| ==> IsEdit(edits[i])
  {
    if edits == [] then m
    else Edit(k, EditAll(k, m, edits[..|edits| - 1]), edits[|edits| - 1])
  }

  /** A memory on which resolution is due: an ingest, then edits. */
  ghost predicate AwaitsResolution<B(!new), F(!new), E(!new)>(k: Kernel<B, F, E>, m: Memory<B, F, E>) {
    exists m0: Memory<B, F, E>, uri, source, edits ::
      AllEdits(edits) && m == EditAll(k, IngestDeferred(k, m0, uri, source), edits)
  }

  /** On such a memory no edit changes what resolution makes of it. */
  ghost predicate EditsKeepDerived<B(!new), F(!new), E(!new)>(k: Kernel<B, F, E>) {
    forall m: Memory<B, F, E>, op :: AwaitsResolution(k, m) ==> Harmless(k, true, m, op)
  }

  /** While ingests are pending the memory is one that awaits resolution. */
  lemma {:induction false} PendingAwaits<B(!new), F(!new), E(!new)>(k: Kernel<B, F, E>, m: Memory<B, F, E>, ops: seq<Op>)
    requires PendingIngest(ops)
    ensures AwaitsResolution(k, ApplyAll(k, Replaying(m, false), ops).m)
  {
    hide EditBase, IngestDeferred;
    var n := |ops| - 1;
    var r := ApplyAll(k, Replaying(m, false), ops[..n]);
    if ops[n].Ingest? {
      assert AllEdits([]) && EditAll(k, IngestDeferred(k, r.m, ops[n].uri, ops[n].source), []) == ApplyAll(k, Replaying(m, false), ops).m;
    } else {
      PendingAwaits(k, m, ops[..n]);
      var m0: Memory<B, F, E>, uri, source, edits :|
        AllEdits(edits) && r.m == EditAll(k, IngestDeferred(k, m0, uri, source), edits);
      assert (edits + [ops[n]])[..|edits|] == edits;
      assert AllEdits(edits + [ops[n]]);
    }
  }

  /** One ingest and then edits: the replay is still pending and holds the edited memory. */
  lemma {:induction false} IngestThenEdits<B, F, E>(k: Kernel<B, F, E>, m: Memory<B, F, E>, uri: Text, source: Text, edits: seq<Op>)
    requires AllEdits(edits)
    ensures PendingIngest([Ingest(uri, source)] + edits)
    ensures ApplyAll(k, Replaying(m, false), [Ingest(uri, source)] + edits).m == EditAll(k, IngestDeferred(k, m, uri, source), edits)
    decreases |edits|
  {
    hide IngestDeferred, EditBase;
    var ops := [Ingest(uri, source)] + edits;
    if edits == [] {
      assert ops[..0] == [];
      assert ApplyAll(k, Replaying(m, false), ops) == ApplyOp(k, Replaying(m, false), ops[0]);
    } else {
      var n := |edits| - 1;
      assert ops[..|ops| - 1] == [Ingest(uri, source)] + edits[..n] && ops[|ops| - 1] == edits[n];
      IngestThenEdits(k, m, uri, source, edits[..n]);
    }
  }

  lemma {:induction false} AlwaysQuiet<B(!new), F(!new), E(!new)>(k: Kernel<B, F, E>, m: Memory<B, F, E>, ops: seq<Op>)
    requires EditsKeepDerived(k)
    ensures Quiet(k, m, ops)
  {
    hide AwaitsResolution, ApplyAll, Redo;
    if ops != [] {
      var n := |ops| - 1;
      AlwaysQuiet(k, m, ops[..n]);
      if PendingIngest(ops[..n]) { PendingAwaits(k, m, ops[..n]); }
    }
  }

  /** Ingesting and editing start from the flag no more than resolution does. */
  lemma {:induction false} EditAllFlag<B, F, E>(k: Kernel<B, F, E>, m0: Memory<B, F, E>, uri: Text, source: Text, edits: seq<Op>)
    requires AllEdits(edits)
    ensures EditAll(k, IngestDeferred(k, m0.(pending := false), uri, source), edits) == EditAll(k, IngestDeferred(k, m0, uri, source), edits)
  {
    assert IngestDeferred(k, m0.(pending := false), uri, source) == IngestDeferred(k, m0, uri, source);
  }

  /** A memory replays every log exactly if and only if no edit after an unresolved ingest can change what resolution makes of it. */
  lemma ReplayIsLiveExactly<B(!new), F(!new), E(!new)>(k: Kernel<B, F, E>)
    ensures (forall m: Memory<B, F, E>, ops :: !m.pending ==> ReplaysExactly(k, m, ops)) <==> EditsKeepDerived(k)
  {
    hide ReplaysExactly, ApplyAll, EditBase, Redo, IngestDeferred;
    if EditsKeepDerived(k) {
      forall m: Memory<B, F, E>, ops | !m.pending
        ensures ReplaysExactly(k, m, ops)
      {
        AlwaysQuiet(k, m, ops);
        ReplaysExactlyWhenQuiet(k, m, ops);
      }
    }
    if forall m: Memory<B, F, E>, ops :: !m.pending ==> ReplaysExactly(k, m, ops) {
      forall m: Memory<B, F, E>, op | AwaitsResolution(k, m)
        ensures Harmless(k, true, m, op)
      {
        var m0: Memory<B, F, E>, uri, source, edits :|
          AllEdits(edits) && m == EditAll(k, IngestDeferred(k, m0, uri, source), edits);
        var start := m0.(pending := false);
        var front := [Ingest(uri, source)] + edits;
        EditAllFlag(k, m0, uri, source, edits);
        IngestThenEdits(k, start, uri, source, edits);
        assert ReplaysExactly(k, start, front + [op]);
        ReplaysExactlyWhenQuiet(k, start, front + [op]);
        QuietSnoc(k, start, front, op);
      }
    }
  }
}
