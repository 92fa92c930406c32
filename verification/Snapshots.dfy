/** What a snapshot forgets: the references that resolution reads. When replay from a snapshot still shows what it stands for. */
module Snapshots {
  import opened Results
  import opened Keys
  import opened Replay
  import opened ReplayExactness

  /** The memory that loading a snapshot of the replay of `a` gives. */
  function FromSnapshot<B, F, E>(k: Kernel<B, F, E>, m: Memory<B, F, E>, a: seq<Op>): Memory<B, F, E> {
    Reloaded(k, SnapshotOf(Replayed(k, m, a)))
  }

  /** At every point of `b`, the replay from the snapshot shows what the replay from the start shows. */
  ghost predicate SnapshotSuffices<B, F, E>(k: Kernel<B, F, E>, m: Memory<B, F, E>, a: seq<Op>, b: seq<Op>) {
    forall t :: 0 <= t <= |b| ==> SnapshotOf(Replayed(k, FromSnapshot(k, m, a), b[..t])) == SnapshotOf(Replayed(k, m, a + b[..t]))
  }

  /**
   * Every ingest of `b` resolves to the same edges with the references of the files retained as with
   * those of all files, and no edit of `b`, made while a resolution is due, tells the two apart.
   */
  ghost predicate KeepsReplays<B, F, E>(k: Kernel<B, F, E>, m: Memory<B, F, E>, a: seq<Op>, b: seq<Op>) {
    Agree(k, Replaying(FromSnapshot(k, m, a), false), ApplyAll(k, Replaying(m, false), a), false, b)
  }

  lemma {:induction false} ApplyAppend<B, F, E>(k: Kernel<B, F, E>, r: Replaying<B, F, E>, a: seq<Op>, b: seq<Op>)
    ensures ApplyAll(k, r, a + b) == ApplyAll(k, ApplyAll(k, r, a), b)
    decreases |b|
  {
    hide ApplyOp;
    if b == [] {
      assert a + b == a;
    } else {
      var n := |b| - 1;
      assert (a + b)[..|a + b| - 1] == a + b[..n];
      ApplyAppend(k, r, a, b[..n]);
    }
  }

  lemma {:induction false} LiveAppend<B, F, E>(k: Kernel<B, F, E>, m: Memory<B, F, E>, a: seq<Op>, b: seq<Op>)
    ensures Live(k, m, a + b) == Live(k, Live(k, m, a), b)
    decreases |b|
  {
    hide LiveStep;
    if b == [] {
      assert a + b == a;
    } else {
      var n := |b| - 1;
      assert (a + b)[..|a + b| - 1] == a + b[..n];
      LiveAppend(k, m, a, b[..n]);
    }
  }

  /** A snapshot shows what the replay it was taken of shows. */
  lemma SnapshotShows<B, F, E>(k: Kernel<B, F, E>, m: Memory<B, F, E>, a: seq<Op>)
    requires !m.pending
    ensures Alike(k, Replaying(FromSnapshot(k, m, a), false), ApplyAll(k, Replaying(m, false), a))
  {
    hide ApplyAll;
    DirtyIsPending(k, m, a);
  }

  /** Replay from a snapshot shows what the full replay shows, at every later point, if and only if every step agrees. */
  lemma SnapshotSufficesExactly<B, F, E>(k: Kernel<B, F, E>, m: Memory<B, F, E>, a: seq<Op>, b: seq<Op>)
    requires !m.pending
    ensures SnapshotSuffices(k, m, a, b) <==> KeepsReplays(k, m, a, b)
  {
    hide ApplyAll, Agree, Settle, RunOf, FromSnapshot;
    var c, w := Replaying(FromSnapshot(k, m, a), false), ApplyAll(k, Replaying(m, false), a);
    SnapshotShows(k, m, a);
    AgreeExactly(k, c, w, false, b);
    forall t | 0 <= t <= |b|
      ensures Shown(k, ApplyAll(k, c, b[..t])) == SnapshotOf(Replayed(k, FromSnapshot(k, m, a), b[..t]))
      ensures Shown(k, RunOf(k, w, false, b[..t])) == SnapshotOf(Replayed(k, m, a + b[..t]))
    {
      RunIsReplay(k, w, b[..t]);
      ApplyAppend(k, Replaying(m, false), a, b[..t]);
    }
  }

  // ---------------------------------------------------------------- what the condition comes to

  predicate NoIngest(ops: seq<Op>) {
    forall i :: 0 <= i < |ops| ==> !ops[i].Ingest?
  }

  /** The edits of `b` that the full replay meets while ingests of `a` are pending are harmless. */
  ghost predicate QuietTail<B, F, E>(k: Kernel<B, F, E>, m: Memory<B, F, E>, a: seq<Op>, b: seq<Op>) {
    b == [] ||
    var n := |b| - 1;
    QuietTail(k, m, a, b[..n]) && Harmless(k, PendingIngest(a + b[..n]), ApplyAll(k, Replaying(m, false), a + b[..n]).m, b[n])
  }

  /** In a quiet log every tail is. */
  lemma {:induction false} QuietHasQuietTails<B, F, E>(k: Kernel<B, F, E>, m: Memory<B, F, E>, a: seq<Op>, b: seq<Op>)
    ensures Quiet(k, m, a + b) <==> Quiet(k, m, a) && QuietTail(k, m, a, b)
    decreases |b|
  {
    hide Harmless, ApplyAll, PendingIngest;
    if b == [] {
      assert a + b == a;
    } else {
      var n := |b| - 1;
      assert (a + b)[..|a + b| - 1] == a + b[..n];
      QuietHasQuietTails(k, m, a, b[..n]);
    }
  }

  lemma {:induction false} NothingDue<B, F, E>(k: Kernel<B, F, E>, m: Memory<B, F, E>, ops: seq<Op>)
    requires NoIngest(ops)
    ensures !ApplyAll(k, Replaying(m, false), ops).dirty
  {
    if ops != [] { NothingDue(k, m, ops[..|ops| - 1]); }
  }

  lemma CleanStep<B, F, E>(k: Kernel<B, F, E>, c: Replaying<B, F, E>, w: Replaying<B, F, E>, op: Op)
    requires Alike(k, c, w) && !c.dirty && !op.Ingest?
    ensures StepAgrees(k, c, w, op) <==> Harmless(k, w.dirty, w.m, op)
  {
    hide Redo;
  }

  /** When no ingest is retained, a snapshot keeps the replays if and only if the edits right after it are harmless. */
  lemma {:induction false} KeepsReplaysWithoutIngests<B, F, E>(k: Kernel<B, F, E>, m: Memory<B, F, E>, a: seq<Op>, b: seq<Op>)
    requires !m.pending && NoIngest(b)
    ensures KeepsReplays(k, m, a, b) <==> QuietTail(k, m, a, b)
    decreases |b|
  {
    hide ApplyAll, Harmless, StepAgrees, Shown, FromSnapshot, ApplyOp, PendingIngest;
    if b != [] {
      var n := |b| - 1;
      var c, w := Replaying(FromSnapshot(k, m, a), false), ApplyAll(k, Replaying(m, false), a);
      KeepsReplaysWithoutIngests(k, m, a, b[..n]);
      SnapshotShows(k, m, a);
      if KeepsReplays(k, m, a, b[..n]) {
        AgreeKeepsAlike(k, c, w, false, b[..n]);
        RunIsReplay(k, w, b[..n]);
        ApplyAppend(k, Replaying(m, false), a, b[..n]);
        NothingDue(k, FromSnapshot(k, m, a), b[..n]);
        DirtyIsPending(k, m, a + b[..n]);
        CleanStep(k, ApplyAll(k, c, b[..n]), ApplyAll(k, w, b[..n]), b[n]);
      }
    }
  }

  /** Owned by a file whose references are in `all` but not in `few`. */
  predicate Forgotten<B, F, E>(k: Kernel<B, F, E>, few: Refs<F>, all: Refs<F>, e: E) {
    k.owner(e).Some? && k.owner(e).value in all.files && k.owner(e).value !in few.files
  }

  /**
   * Resolution with fewer references gives the same edges if and only if every file forgotten has
   * exactly the edges it would resolve to now, and the others resolve as they would with all.
   */
  lemma RedoAgreesExactly<B, F, E>(k: Kernel<B, F, E>, b: B, few: Refs<F>, all: Refs<F>, edges: set<E>)
    requires few.files <= all.files
    ensures Redo(k, b, few, edges) == Redo(k, b, all, edges) <==>
            && (forall e :: Forgotten(k, few, all, e) ==> (e in edges <==> e in k.links(b, all)))
            && (forall e :: Rebuilt(k, few, e) ==> (e in k.links(b, few) <==> e in k.links(b, all)))
  {
    var x, y := Redo(k, b, few, edges), Redo(k, b, all, edges);
    if x == y {
      forall e | Rebuilt(k, few, e)
        ensures e in k.links(b, few) <==> e in k.links(b, all)
      {
        RedoAt(k, b, few, all, edges, e);
      }
      forall e | Forgotten(k, few, all, e)
        ensures e in edges <==> e in k.links(b, all)
      {
        RedoAt(k, b, few, all, edges, e);
      }
    } else {
      var e := Telling(x, y);
      RedoAt(k, b, few, all, edges, e);
    }
  }

  lemma Telling<E>(x: set<E>, y: set<E>) returns (e: E)
    requires x != y
    ensures e in x <==> e !in y
  {
    if e' :| e' in x && e' !in y {
      e := e';
    } else {
      e :| e in y && e !in x;
    }
  }

  lemma RedoAt<B, F, E>(k: Kernel<B, F, E>, b: B, few: Refs<F>, all: Refs<F>, edges: set<E>, e: E)
    requires few.files <= all.files
    ensures (e in Redo(k, b, few, edges) <==> e in Redo(k, b, all, edges)) <==>
            && (Forgotten(k, few, all, e) ==> (e in edges <==> e in k.links(b, all)))
            && (Rebuilt(k, few, e) ==> (e in k.links(b, few) <==> e in k.links(b, all)))
  {
  }

  /**
   * So an ingest keeps a snapshot's replay like the full one if and only if, with the new file in
   * place, every call of a forgotten file still resolves to the edge it has, or to nothing when it
   * has none, and the retained files resolve without the forgotten ones as they would with them.
   */
  lemma IngestAgreesExactly<B, F, E>(k: Kernel<B, F, E>, c: Replaying<B, F, E>, w: Replaying<B, F, E>, uri: Text, source: Text)
    requires Alike(k, c, w) && c.m.refs.files <= w.m.refs.files
    ensures var b := w.m.base;
            var after := k.ingestBase(b, uri, source);
            var few, all := IngestRefs(k, b, c.m.refs, uri, source), IngestRefs(k, b, w.m.refs, uri, source);
            var kept := KeptEdges(k, b, Settle(k, w).m.edges, uri, source);
            StepAgrees(k, c, w, Ingest(uri, source)) <==>
              && (forall e :: Forgotten(k, few, all, e) ==> (e in kept <==> e in k.links(after, all)))
              && (forall e :: Rebuilt(k, few, e) ==> (e in k.links(after, few) <==> e in k.links(after, all)))
  {
    var b := w.m.base;
    var few, all := IngestRefs(k, b, c.m.refs, uri, source), IngestRefs(k, b, w.m.refs, uri, source);
    assert few.files <= all.files;
    RedoAgreesExactly(k, k.ingestBase(b, uri, source), few, all, KeptEdges(k, b, Settle(k, w).m.edges, uri, source));
    hide Redo, KeptEdges, IngestRefs, Forgotten, Rebuilt;
  }

  /** The references of a replay from a snapshot are those of retained files only. */
  lemma {:induction false} SnapshotKnowsFewer<B, F, E>(k: Kernel<B, F, E>, c: Replaying<B, F, E>, w: Replaying<B, F, E>, eager: bool, ops: seq<Op>)
    requires Alike(k, c, w) && Agree(k, c, w, eager, ops) && c.m.refs.files <= w.m.refs.files
    ensures ApplyAll(k, c, ops).m.refs.files <= RunOf(k, w, eager, ops).m.refs.files
  {
    hide StepAgrees, Redo, KeptEdges, Alike;
    if ops != [] {
      var n := |ops| - 1;
      SnapshotKnowsFewer(k, c, w, eager, ops[..n]);
      AgreeKeepsAlike(k, c, w, eager, ops[..n]);
      FewerStep(k, ApplyAll(k, c, ops[..n]), RunOf(k, w, eager, ops[..n]), eager, ops[n]);
    }
  }

  lemma FewerStep<B, F, E>(k: Kernel<B, F, E>, c: Replaying<B, F, E>, w: Replaying<B, F, E>, eager: bool, op: Op)
    requires Alike(k, c, w) && c.m.refs.files <= w.m.refs.files
    ensures ApplyOp(k, c, op).m.refs.files <= StepOf(k, w, eager, op).m.refs.files
  {
    hide Redo, KeptEdges;
    match op
    case PageFault(files, depth) =>
      FailAllKeepsPending(k, Settle(k, c).m, files, depth);
      FailAllKeepsPending(k, Settle(k, w).m, files, depth);
    case _ =>
  }

  // ---------------------------------------------------------------- a log that starts from a snapshot, against the live memory

  /** At every point of the log, the replay from `start` shows what was live there, the live memory having begun as `origin`. */
  ghost predicate ReplaysAs<B, F, E>(k: Kernel<B, F, E>, start: Memory<B, F, E>, origin: Memory<B, F, E>, ops: seq<Op>) {
    forall n :: 0 <= n <= |ops| ==> SnapshotOf(Replayed(k, start, ops[..n])) == SnapshotOf(Live(k, origin, ops[..n]))
  }

  /** The replay shows the live memories if and only if it starts like it and every step agrees. */
  lemma ReplaysAsExactly<B, F, E>(k: Kernel<B, F, E>, start: Memory<B, F, E>, origin: Memory<B, F, E>, ops: seq<Op>)
    requires !start.pending && !origin.pending
    ensures ReplaysAs(k, start, origin, ops) <==>
            SnapshotOf(start) == SnapshotOf(origin) && Agree(k, Replaying(start, false), Replaying(origin, false), true, ops)
  {
    hide ApplyAll, Agree, Settle, RunOf, Live;
    var c, w := Replaying(start, false), Replaying(origin, false);
    SettledShows(k, start);
    SettledShows(k, origin);
    forall n | 0 <= n <= |ops|
      ensures Shown(k, ApplyAll(k, c, ops[..n])) == SnapshotOf(Replayed(k, start, ops[..n]))
      ensures Shown(k, RunOf(k, w, true, ops[..n])) == SnapshotOf(Live(k, origin, ops[..n]))
    {
      RunIsLive(k, origin, ops[..n]);
      SettledShows(k, Live(k, origin, ops[..n]));
    }
    if SnapshotOf(start) == SnapshotOf(origin) {
      AgreeExactly(k, c, w, true, ops);
    }
    if ReplaysAs(k, start, origin, ops) {
      assert ops[..0] == [];
      StartShows(k, start, origin);
    }
  }

  lemma StartShows<B, F, E>(k: Kernel<B, F, E>, start: Memory<B, F, E>, origin: Memory<B, F, E>)
    ensures SnapshotOf(Replayed(k, start, [])) == SnapshotOf(start) && SnapshotOf(Live(k, origin, [])) == SnapshotOf(origin)
  {
  }

  /** One more op: what a session can tell before it records it. */
  lemma ReplaysAsSnoc<B, F, E>(k: Kernel<B, F, E>, start: Memory<B, F, E>, origin: Memory<B, F, E>, ops: seq<Op>, op: Op)
    requires !start.pending && !origin.pending && ReplaysAs(k, start, origin, ops)
    ensures ReplaysAs(k, start, origin, ops + [op]) <==>
            StepAgrees(k, ApplyAll(k, Replaying(start, false), ops), Replaying(Live(k, origin, ops), false), op)
    ensures Alike(k, ApplyAll(k, Replaying(start, false), ops), Replaying(Live(k, origin, ops), false))
  {
    hide ApplyAll, RunOf, Live, StepAgrees, ReplaysAs;
    ReplaysAsExactly(k, start, origin, ops);
    ReplaysAsExactly(k, start, origin, ops + [op]);
    RunIsLive(k, origin, ops);
    AgreeKeepsAlike(k, Replaying(start, false), Replaying(origin, false), true, ops) by {
      SettledShows(k, start);
      SettledShows(k, origin);
    }
    assert (ops + [op])[..|ops|] == ops;
  }

  lemma {:induction false} AgreeAppend<B, F, E>(k: Kernel<B, F, E>, c: Replaying<B, F, E>, w: Replaying<B, F, E>, eager: bool, a: seq<Op>, b: seq<Op>)
    ensures Agree(k, c, w, eager, a + b) <==>
            Agree(k, c, w, eager, a) && Agree(k, ApplyAll(k, c, a), RunOf(k, w, eager, a), eager, b)
    decreases |b|
  {
    hide StepAgrees, ApplyOp, StepOf;
    if b == [] {
      assert a + b == a;
    } else {
      var n := |b| - 1;
      assert (a + b)[..|a + b| - 1] == a + b[..n];
      AgreeAppend(k, c, w, eager, a, b[..n]);
      ApplyAppend(k, c, a, b[..n]);
      RunAppend(k, w, eager, a, b[..n]);
    }
  }

  lemma {:induction false} RunAppend<B, F, E>(k: Kernel<B, F, E>, r: Replaying<B, F, E>, eager: bool, a: seq<Op>, b: seq<Op>)
    ensures RunOf(k, r, eager, a + b) == RunOf(k, RunOf(k, r, eager, a), eager, b)
    decreases |b|
  {
    hide StepOf;
    if b == [] {
      assert a + b == a;
    } else {
      var n := |b| - 1;
      assert (a + b)[..|a + b| - 1] == a + b[..n];
      RunAppend(k, r, eager, a, b[..n]);
    }
  }

  /** Several more ops at once. */
  lemma ReplaysAsAppend<B, F, E>(k: Kernel<B, F, E>, start: Memory<B, F, E>, origin: Memory<B, F, E>, a: seq<Op>, b: seq<Op>)
    requires !start.pending && !origin.pending && ReplaysAs(k, start, origin, a)
    ensures ReplaysAs(k, start, origin, a + b) <==>
            Agree(k, ApplyAll(k, Replaying(start, false), a), Replaying(Live(k, origin, a), false), true, b)
  {
    hide ApplyAll, RunOf, Live, Agree, ReplaysAs;
    ReplaysAsExactly(k, start, origin, a);
    ReplaysAsExactly(k, start, origin, a + b);
    AgreeAppend(k, Replaying(start, false), Replaying(origin, false), true, a, b);
    RunIsLive(k, origin, a);
  }

  /** Resolving twice over the same references is resolving once: what came of the first is rebuilt. */
  lemma RedoTwice<B, F, E>(k: Kernel<B, F, E>, b: B, after: B, refs: Refs<F>, edges: set<E>)
    ensures Redo(k, after, refs, Redo(k, b, refs, edges)) == Redo(k, after, refs, edges)
  {
  }

  /** An edit keeps a replay like the live memory if no ingest is due, or resolving again changes nothing. */
  lemma EditAgrees<B, F, E>(k: Kernel<B, F, E>, c: Replaying<B, F, E>, l: Memory<B, F, E>, op: Op)
    requires IsEdit(op) && Alike(k, c, Replaying(l, false))
    ensures StepAgrees(k, c, Replaying(l, false), op) <==>
            (c.dirty ==> Redo(k, EditBase(k, l.base, op), c.m.refs, l.edges) == l.edges)
  {
    if c.dirty { RedoTwice(k, c.m.base, EditBase(k, l.base, op), c.m.refs, c.m.edges); }
    hide Redo;
  }

  /** A replay that shows the live memories met its edits quietly. */
  lemma {:induction false} ReplaysAsIsQuiet<B, F, E>(k: Kernel<B, F, E>, start: Memory<B, F, E>, origin: Memory<B, F, E>, ops: seq<Op>)
    requires !start.pending && !origin.pending && SnapshotOf(start) == SnapshotOf(origin)
    requires Agree(k, Replaying(start, false), Replaying(origin, false), true, ops)
    ensures Quiet(k, start, ops)
  {
    hide StepAgrees, Harmless, Shown, ApplyOp, StepOf, LiveStep, PendingIngest;
    if ops != [] {
      var n := |ops| - 1;
      ReplaysAsIsQuiet(k, start, origin, ops[..n]);
      AgreeKeepsAlike(k, Replaying(start, false), Replaying(origin, false), true, ops[..n]) by {
        SettledShows(k, start);
        SettledShows(k, origin);
      }
      RunIsLive(k, origin, ops[..n]);
      LiveIsSettled(k, origin, ops[..n]);
      DirtyIsPending(k, start, ops[..n]);
      HarmlessAgrees(k, ApplyAll(k, Replaying(start, false), ops[..n]), Live(k, origin, ops[..n]), ops[n]);
    }
  }

  /** Where the snapshot has forgotten nothing, a quiet log replays to its live memory in full. */
  lemma ReplaysAsItself<B, F, E>(k: Kernel<B, F, E>, start: Memory<B, F, E>, ops: seq<Op>)
    requires !start.pending
    ensures ReplaysAs(k, start, start, ops) <==> Quiet(k, start, ops)
    ensures Quiet(k, start, ops) ==> Replayed(k, start, ops) == Live(k, start, ops)
  {
    hide ApplyAll, Live, Agree, Quiet, ReplaysAs;
    ReplaysAsExactly(k, start, start, ops);
    QuietAgrees(k, start, ops);
    if Quiet(k, start, ops) { ReplayEqualsLive(k, start, ops); }
  }

  /** Taking a snapshot leaves the log replaying to what was live if and only if the snapshot keeps the replays. */
  lemma SnapshotReplaysAs<B, F, E>(k: Kernel<B, F, E>, start: Memory<B, F, E>, origin: Memory<B, F, E>, a: seq<Op>, b: seq<Op>)
    requires !start.pending && !origin.pending && ReplaysAs(k, start, origin, a + b)
    ensures ReplaysAs(k, FromSnapshot(k, start, a), Live(k, origin, a), b) <==> KeepsReplays(k, start, a, b)
    ensures NoIngest(b) ==> KeepsReplays(k, start, a, b)
  {
    hide Replayed, Live, KeepsReplays, Agree, FromSnapshot;
    SnapshotSufficesExactly(k, start, a, b);
    forall t | 0 <= t <= |b|
      ensures SnapshotOf(Replayed(k, start, a + b[..t])) == SnapshotOf(Live(k, Live(k, origin, a), b[..t]))
    {
      LiveAppend(k, origin, a, b[..t]);
      assert (a + b)[..|a| + t] == a + b[..t];
    }
    if NoIngest(b) {
      ReplaysAsExactly(k, start, origin, a + b);
      ReplaysAsIsQuiet(k, start, origin, a + b);
      QuietHasQuietTails(k, start, a, b);
      KeepsReplaysWithoutIngests(k, start, a, b);
    }
  }

  /** Loading a snapshot of nothing folded changes nothing. */
  lemma NothingCut<B, F, E>(k: Kernel<B, F, E>, start: Memory<B, F, E>, b: seq<Op>)
    requires start == Reloaded(k, SnapshotOf(start))
    ensures KeepsReplays(k, start, [], b)
  {
    AgreesWithItself(k, Replaying(start, false), b);
  }

  lemma {:induction false} AgreesWithItself<B, F, E>(k: Kernel<B, F, E>, r: Replaying<B, F, E>, ops: seq<Op>)
    ensures Agree(k, r, r, false, ops)
  {
    hide Redo, KeptEdges, ApplyOp;
    if ops != [] {
      AgreesWithItself(k, r, ops[..|ops| - 1]);
      RunIsReplay(k, r, ops[..|ops| - 1]);
    }
  }
}
