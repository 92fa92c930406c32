/** Recorded operations, and the two ways of applying them: live, and deferred on replay. */
module Replay {
  import opened Results
  import opened Keys

  type Text = Bytes

  datatype Recall = WorkingSet | Around(uri: Text) | Query(mode: nat, task: Text)

  datatype Op =
    | Ingest(uri: Text, source: Text)
    | Failure(node: Text, depth: nat)
    | Recalled(recall: Recall, budget: nat)
    | PageFault(files: seq<Text>, depth: nat)
    | Retune(weights: seq<real>)
    | Assert(evidence: Text, claim: Text, supports: bool, weight: real)

  /** What the parser handed over for resolution since the memory was created or loaded: the files, and their references. */
  datatype Refs<F> = Refs(files: set<Text>, facts: F)

  /**
   * The causal memory: what ingestion and edits write, the cross-file edges, the references that
   * resolution reads, and whether a resolution is due.
   */
  datatype Memory<B, F, E> = Memory(base: B, edges: set<E>, refs: Refs<F>, pending: bool)

  /** The part of a memory that a snapshot holds; the references live only at run time. */
  datatype Snapshot<B, E> = Snapshot(base: B, edges: set<E>)

  /** The operations of the memory, as far as the session relies on them. */
  datatype Kernel<!B, !F, !E> = Kernel(
    emptyBase: B,
    noFacts: F,
    ingestBase: (B, Text, Text) -> B,
    changes: (B, Text, Text) -> bool,
    ingestFacts: (F, Text, Text) -> F,
    keeps: (B, Text, Text, E) -> bool,
    owner: E -> Option<Text>,
    links: (B, Refs<F>) -> set<E>,
    signalFailure: (B, set<E>, Text, nat) -> (B, set<E>),
    pageIn: (B, set<E>, Text) -> (B, set<E>),
    retune: (B, seq<real>) -> B,
    relate: (B, Text, Text, bool, real) -> B
  )

  function NoRefs<B, F, E>(k: Kernel<B, F, E>): Refs<F> {
    Refs({}, k.noFacts)
  }

  function Empty<B, F, E>(k: Kernel<B, F, E>): Memory<B, F, E> {
    Memory(k.emptyBase, {}, NoRefs(k), false)
  }

  function SnapshotOf<B, F, E>(m: Memory<B, F, E>): Snapshot<B, E> {
    Snapshot(m.base, m.edges)
  }

  /** A snapshot loads without any references. */
  function Reloaded<B, F, E>(k: Kernel<B, F, E>, s: Snapshot<B, E>): Memory<B, F, E> {
    Memory(s.base, s.edges, NoRefs(k), false)
  }

  /** A file whose text is the one on record is not parsed, so it hands over nothing. */
  function IngestRefs<B, F, E>(k: Kernel<B, F, E>, b: B, refs: Refs<F>, uri: Text, source: Text): Refs<F> {
    if k.changes(b, uri, source) then Refs(refs.files + {uri}, k.ingestFacts(refs.facts, uri, source)) else refs
  }

  /** The edges that survive replacing the nodes of the old text of a file. */
  function KeptEdges<B, F, E>(k: Kernel<B, F, E>, b: B, edges: set<E>, uri: Text, source: Text): set<E> {
    set e | e in edges && k.keeps(b, uri, source, e)
  }

  function IngestDeferred<B, F, E>(k: Kernel<B, F, E>, m: Memory<B, F, E>, uri: Text, source: Text): Memory<B, F, E> {
    Memory(k.ingestBase(m.base, uri, source), KeptEdges(k, m.base, m.edges, uri, source),
           IngestRefs(k, m.base, m.refs, uri, source), true)
  }

  /** Import edges are rebuilt from the base every time; a file's calls and reads only while its references are at hand. */
  predicate Rebuilt<B, F, E>(k: Kernel<B, F, E>, refs: Refs<F>, e: E) {
    k.owner(e).Some? ==> k.owner(e).value in refs.files
  }

  /** Prune what can be rebuilt, and rebuild it. */
  function Redo<B, F, E>(k: Kernel<B, F, E>, b: B, refs: Refs<F>, edges: set<E>): set<E> {
    (set e | e in edges && !Rebuilt(k, refs, e)) + (set e | e in k.links(b, refs) && Rebuilt(k, refs, e))
  }

  /** Nothing to do unless something was ingested. */
  function Resolve<B, F, E>(k: Kernel<B, F, E>, m: Memory<B, F, E>): Memory<B, F, E> {
    if m.pending then m.(edges := Redo(k, m.base, m.refs, m.edges), pending := false) else m
  }

  function Fail<B, F, E>(k: Kernel<B, F, E>, m: Memory<B, F, E>, node: Text, depth: nat): Memory<B, F, E> {
    var (b, edges) := k.signalFailure(m.base, m.edges, node, depth);
    m.(base := b, edges := edges)
  }

  function FileNode(file: Text): Text {
    [0x66, 0x69, 0x6C, 0x65, 0x3A] + file // "file:"
  }

  function FailAll<B, F, E>(k: Kernel<B, F, E>, m: Memory<B, F, E>, files: seq<Text>, depth: nat): Memory<B, F, E> {
    if files == [] then m
    else
      var n := |files| - 1;
      Fail(k, FailAll(k, m, files[..n], depth), FileNode(files[n]), depth)
  }

  function EnsureResident<B, F, E>(k: Kernel<B, F, E>, m: Memory<B, F, E>, recall: Recall): Memory<B, F, E> {
    match recall
    case Around(uri) =>
      var (b, edges) := k.pageIn(m.base, m.edges, uri);
      m.(base := b, edges := edges)
    case _ => m
  }

  /** Retune and Assert write the base only; neither reads a cross-file edge. */
  predicate IsEdit(op: Op) {
    op.Retune? || op.Assert?
  }

  function EditBase<B, F, E>(k: Kernel<B, F, E>, b: B, op: Op): B
    requires IsEdit(op)
  {
    match op
    case Retune(weights) => k.retune(b, weights)
    case Assert(evidence, claim, supports, weight) => k.relate(b, evidence, claim, supports, weight)
  }

  function Edit<B, F, E>(k: Kernel<B, F, E>, m: Memory<B, F, E>, op: Op): Memory<B, F, E>
    requires IsEdit(op)
  {
    m.(base := EditBase(k, m.base, op))
  }

  // ---------------------------------------------------------------- live execution

  /** What the session does to its live memory when it records `op`: an ingest resolves at once. */
  function LiveStep<B, F, E>(k: Kernel<B, F, E>, m: Memory<B, F, E>, op: Op): Memory<B, F, E> {
    match op
    case Ingest(uri, source) => Resolve(k, IngestDeferred(k, m, uri, source))
    case Failure(node, depth) => Fail(k, m, node, depth)
    case Recalled(recall, _) => EnsureResident(k, m, recall)
    case PageFault(files, depth) => FailAll(k, m, files, depth)
    case Retune(_) => Edit(k, m, op)
    case Assert(_, _, _, _) => Edit(k, m, op)
  }

  function Live<B, F, E>(k: Kernel<B, F, E>, m: Memory<B, F, E>, ops: seq<Op>): Memory<B, F, E> {
    if ops == [] then m
    else LiveStep(k, Live(k, m, ops[..|ops| - 1]), ops[|ops| - 1])
  }

  // ---------------------------------------------------------------- deferred replay

  /** A replay in progress: the memory, and whether ingests await resolution. */
  datatype Replaying<B, F, E> = Replaying(m: Memory<B, F, E>, dirty: bool)

  function Settle<B, F, E>(k: Kernel<B, F, E>, r: Replaying<B, F, E>): Replaying<B, F, E> {
    if r.dirty then Replaying(Resolve(k, r.m), false) else r
  }

  /** One recorded op, resolving first only where cross-file edges are read. */
  function ApplyOp<B, F, E>(k: Kernel<B, F, E>, r: Replaying<B, F, E>, op: Op): Replaying<B, F, E> {
    match op
    case Ingest(uri, source) => Replaying(IngestDeferred(k, r.m, uri, source), true)
    case Failure(node, depth) =>
      var s := Settle(k, r);
      s.(m := Fail(k, s.m, node, depth))
    case PageFault(files, depth) =>
      var s := Settle(k, r);
      s.(m := FailAll(k, s.m, files, depth))
    case Recalled(recall, _) =>
      var s := Settle(k, r);
      s.(m := EnsureResident(k, s.m, recall))
    case Retune(_) => r.(m := Edit(k, r.m, op))
    case Assert(_, _, _, _) => r.(m := Edit(k, r.m, op))
  }

  function ApplyAll<B, F, E>(k: Kernel<B, F, E>, r: Replaying<B, F, E>, ops: seq<Op>): Replaying<B, F, E> {
    if ops == [] then r
    else ApplyOp(k, ApplyAll(k, r, ops[..|ops| - 1]), ops[|ops| - 1])
  }

  /** Replay `ops` on top of `m`, resolving the trailing ingests at the end. */
  function Replayed<B, F, E>(k: Kernel<B, F, E>, m: Memory<B, F, E>, ops: seq<Op>): Memory<B, F, E> {
    Settle(k, ApplyAll(k, Replaying(m, false), ops)).m
  }

  // ---------------------------------------------------------------- batches

  function IngestOps(files: seq<(Text, Text)>): seq<Op> {
    seq(|files|, i requires 0 <= i < |files| => Ingest(files[i].0, files[i].1))
  }

  /** The batch: defer every file, resolve once. */
  function IngestAll<B, F, E>(k: Kernel<B, F, E>, m: Memory<B, F, E>, files: seq<(Text, Text)>): Memory<B, F, E> {
    if files == [] then m
    else
      var n := |files| - 1;
      IngestDeferred(k, IngestAll(k, m, files[..n]), files[n].0, files[n].1)
  }

  lemma {:induction false} DeferredIngests<B, F, E>(k: Kernel<B, F, E>, m: Memory<B, F, E>, files: seq<(Text, Text)>)
    requires !m.pending
    ensures var r := ApplyAll(k, Replaying(m, false), IngestOps(files));
            r == Replaying(IngestAll(k, m, files), files != []) && r.m.pending == r.dirty
    decreases |files|
  {
    if files != [] {
      var n := |files| - 1;
      DeferredIngests(k, m, files[..n]);
      assert IngestOps(files)[..n] == IngestOps(files[..n]);
    }
  }

  /** Edges that an earlier resolution rebuilt do not matter to the one after a further ingest. */
  lemma RedoAbsorbs<B, F, E>(k: Kernel<B, F, E>, b: B, refs: Refs<F>, edges: set<E>, uri: Text, source: Text, after: B)
    ensures var more := IngestRefs(k, b, refs, uri, source);
            Redo(k, after, more, KeptEdges(k, b, Redo(k, b, refs, edges), uri, source))
            == Redo(k, after, more, KeptEdges(k, b, edges, uri, source))
  {
  }

  /** A batch leaves the memory of an ingest loop. */
  lemma {:induction false} BatchEqualsLoop<B, F, E>(k: Kernel<B, F, E>, m: Memory<B, F, E>, files: seq<(Text, Text)>)
    requires !m.pending
    ensures Resolve(k, IngestAll(k, m, files)) == Live(k, m, IngestOps(files))
    decreases |files|
  {
    if files != [] {
      hide Redo, KeptEdges, IngestRefs;
      var n := |files| - 1;
      BatchEqualsLoop(k, m, files[..n]);
      assert IngestOps(files)[..n] == IngestOps(files[..n]);
      IngestAllPending(k, m, files[..n]);
      var before := IngestAll(k, m, files[..n]);
      var (uri, source) := files[n];
      RedoAbsorbs(k, before.base, before.refs, before.edges, uri, source, k.ingestBase(before.base, uri, source));
    }
  }

  lemma IngestAllPending<B, F, E>(k: Kernel<B, F, E>, m: Memory<B, F, E>, files: seq<(Text, Text)>)
    requires !m.pending
    ensures IngestAll(k, m, files).pending == (files != [])
    ensures files == [] ==> IngestAll(k, m, files) == m
  {
  }
}
