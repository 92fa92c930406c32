/** The event-sourced session: live memory, op log, hash chain, compaction, forks, exchange. */
module AgentSessions {
  import opened Results
  import opened Keys
  import opened Replay
  import opened ReplayExactness
  import opened Snapshots
  import opened HashChain
  import opened Sync
  import opened Federation
  import OwnStreams

  /** Of `n` ops retained above `floor`, those that step `step` replays. */
  function TailAt(floor: nat, n: nat, step: nat): (t: nat)
    ensures t <= n
  {
    var s := if step <= floor + n then step else floor + n;
    if s <= floor then 0 else s - floor
  }

  class AgentSession<B(!new), F(!new), E(!new, ==)> {
    const k: Kernel<B, F, E>
    const h: LinkHash
    /** SHA-256 of the serialized baseline; the empty string when there is none. */
    const commitment: Option<Snapshot<B, E>> -> Hash
    const check: SigCheck
    /** The signing seed of a workspace that signs its exports, if it has one, and its verifying key. */
    const signingSeed: Option<Text>
    const publicOf: Text -> Text
    const sign: (SyncBundle, Text) -> Text

    var live: Memory<B, F, E>
    var ops: seq<Op>
    var baseline: Option<Snapshot<B, E>>
    var folded: nat
    var chain: seq<Hash>
    var anchor: Hash
    var baselineHash: Hash
    var agent: AgentId
    var foreign: Foreign
    var knownKeys: Pins
    var customAuthorities: map<Text, real>
    /** The live memory as it was when the retained ops began. */
    ghost var origin: Memory<B, F, E>

    /** What a replay starts from: the baseline loaded, so without references. */
    function Start(): Memory<B, F, E>
      reads this
    {
      if baseline.Some? then Reloaded(k, baseline.value) else Empty(k)
    }

    function Len(): nat
      reads this
    {
      folded + |ops|
    }

    /** The retained ops that a replay up to absolute step `step` applies. */
    function Tail(step: nat): (n: nat)
      reads this
      ensures n <= |ops|
    {
      TailAt(folded, |ops|, step)
    }

    /** The memory after absolute step `step`, rebuilt from the baseline. */
    function ReplayAt(step: nat): Memory<B, F, E>
      reads this
    {
      Replayed(k, Start(), ops[..Tail(step)])
    }

    /** The replay of all retained ops, before its last resolution. */
    function Progress(): Replaying<B, F, E>
      reads this
    {
      ApplyAll(k, Replaying(Start(), false), ops)
    }

    ghost predicate ValidChain()
      reads this`anchor, this`folded, this`ops, this`chain, this`baseline, this`baselineHash, this`foreign
    {
      && Linked(h, anchor, folded, ops, chain)
      && baselineHash == commitment(baseline)
      && ValidForeign(h, foreign)
    }

    ghost predicate Valid()
      reads this
    {
      ValidChain() && !live.pending && !origin.pending
    }

    /** The live memory is what the retained ops made of it, and every replay of them shows what was live there. */
    ghost predicate Reproducible()
      reads this
    {
      live == Live(k, origin, ops) && ReplaysAs(k, Start(), origin, ops)
    }

    /** Nothing that the live memory knows was folded away. */
    ghost predicate Whole()
      reads this
    {
      origin == Start()
    }

    /** A fresh in-memory session. */
    constructor (k: Kernel<B, F, E>, h: LinkHash, commitment: Option<Snapshot<B, E>> -> Hash, check: SigCheck,
                 signingSeed: Option<Text>, publicOf: Text -> Text, sign: (SyncBundle, Text) -> Text)
      ensures Valid() && Reproducible() && Whole() && this.k == k && this.h == h
      ensures ops == [] && folded == 0 && anchor == GENESIS && foreign == map[] && knownKeys == map[] && agent == []
    {
      this.k, this.h, this.commitment, this.check := k, h, commitment, check;
      this.signingSeed, this.publicOf, this.sign := signingSeed, publicOf, sign;
      live := Empty(k);
      origin := Empty(k);
      ops, chain, folded, baseline := [], [], 0, None;
      anchor := GENESIS;
      baselineHash := commitment(None);
      agent := [];
      foreign, knownKeys, customAuthorities := map[], map[], map[];
    }

    /** A session with the given timeline: how a fork is put together. Its live memory began as a replay does. */
    constructor Branch(trunk: AgentSession<B, F, E>, live: Memory<B, F, E>, ops: seq<Op>, chain: seq<Hash>)
      ensures this.k == trunk.k && this.h == trunk.h && this.commitment == trunk.commitment && this.check == trunk.check
      ensures this.signingSeed == trunk.signingSeed && this.publicOf == trunk.publicOf && this.sign == trunk.sign
      ensures this.live == live && this.ops == ops && this.chain == chain && this.origin == trunk.Start()
      ensures baseline == trunk.baseline && folded == trunk.folded && anchor == trunk.anchor
      ensures baselineHash == trunk.baselineHash && agent == trunk.agent
      ensures foreign == trunk.foreign && knownKeys == trunk.knownKeys && customAuthorities == trunk.customAuthorities
    {
      k, h, commitment, check := trunk.k, trunk.h, trunk.commitment, trunk.check;
      signingSeed, publicOf, sign := trunk.signingSeed, trunk.publicOf, trunk.sign;
      this.live, this.ops, this.chain := live, ops, chain;
      origin := trunk.Start();
      baseline, folded, anchor := trunk.baseline, trunk.folded, trunk.anchor;
      baselineHash, agent := trunk.baselineHash, trunk.agent;
      foreign, knownKeys, customAuthorities := trunk.foreign, trunk.knownKeys, trunk.customAuthorities;
    }

    // -------------------------------------------------------------- recording

    /** The one write path: the op and its link. */
    method Record(op: Op)
      requires Linked(h, anchor, folded, ops, chain)
      modifies this`ops, this`chain
      ensures Linked(h, anchor, folded, ops, chain)
      ensures ops == old(ops) + [op] && chain[..|chain| - 1] == old(chain)
    {
      var prev := if chain == [] then anchor else chain[|chain| - 1];
      var link := h(prev, folded + |ops|, op);
      LinkedAppend(h, anchor, folded, ops, chain, [op], [link]) by { OneLink(h, prev, folded + |ops|, op, link); }
      chain := chain + [link];
      ops := ops + [op];
    }

    /** Files the op and moves the live memory; the log stays reproducible exactly if the step agrees with its replay. */
    method Commit(op: Op, after: Memory<B, F, E>)
      requires Valid() && after == LiveStep(k, live, op)
      modifies this`ops, this`chain, this`live
      ensures Valid() && ops == old(ops) + [op] && live == after
      ensures old(Reproducible()) ==> (Reproducible() <==> StepAgrees(k, old(Progress()), Replaying(old(live), false), op))
      ensures old(Reproducible()) ==> Alike(k, old(Progress()), Replaying(old(live), false))
      ensures Progress() == ApplyOp(k, old(Progress()), op)
      ensures old(Reproducible() && Whole()) && !IsEdit(op) ==> Reproducible()
    {
      hide LiveStep, Linked, ReplaysAs, StepAgrees, ValidForeign, Alike, Live, ApplyAll, ApplyOp;
      LiveStepIsSettled(k, live, op);
      if Reproducible() {
        ReplaysAsSnoc(k, Start(), origin, ops, op);
        if Whole() && !IsEdit(op) { WholeStep(k, origin, ops, op); }
      }
      LiveSnoc(k, origin, ops, op);
      ApplySnoc(k, Replaying(Start(), false), ops, op);
      Record(op);
      live := after;
    }

    /**
     * One file, resolved at once. The session stays reproducible exactly if the references of the
     * retained files alone resolve to the same edges: always, when nothing was folded away.
     */
    method IngestFile(uri: Text, source: Text)
      requires Valid()
      modifies this`ops, this`chain, this`live
      ensures Valid() && ops == old(ops) + [Ingest(uri, source)]
      ensures live == Live(k, old(live), [Ingest(uri, source)])
      ensures old(Reproducible()) ==>
                (Reproducible() <==>
                 Redo(k, live.base, Progress().m.refs, KeptEdges(k, old(live).base, old(live).edges, uri, source)) == live.edges)
      ensures old(Reproducible() && Whole()) ==> Reproducible()
    {
      hide Linked, ReplaysAs, ValidForeign, Live, ApplyAll, StepAgrees, Shown;
      LiveOne(k, live, Ingest(uri, source));
      if Reproducible() { ReplaysAsSnoc(k, Start(), origin, ops, Ingest(uri, source)); }
      IngestAgrees(k, Progress(), live, uri, source);
      hide Redo, KeptEdges, IngestRefs;
      Commit(Ingest(uri, source), Resolve(k, IngestDeferred(k, live, uri, source)));
    }

    /** A batch: every file recorded and deferred, one resolution at the end. The result is that of an ingest loop. */
    method IngestBatch(files: seq<(Text, Text)>)
      requires Valid()
      modifies this`ops, this`chain, this`live
      ensures Valid() && ops == old(ops) + IngestOps(files)
      ensures live == Live(k, old(live), IngestOps(files))
      ensures old(Reproducible()) ==>
                (Reproducible() <==> Agree(k, old(Progress()), Replaying(old(live), false), true, IngestOps(files)))
      ensures old(Reproducible() && Whole()) ==> Reproducible()
    {
      hide ReplaysAs, LinkHolds, Resolve, Live, IngestDeferred, Agree, ApplyAll;
      assert files[..0] == [];
      for i := 0 to |files|
        invariant ValidChain() && ops == old(ops) + IngestOps(files[..i])
        invariant live == IngestAll(k, old(live), files[..i])
      {
        assert files[..i + 1][..i] == files[..i];
        assert IngestOps(files[..i + 1]) == IngestOps(files[..i]) + [Ingest(files[i].0, files[i].1)];
        Record(Ingest(files[i].0, files[i].1));
        live := IngestDeferred(k, live, files[i].0, files[i].1);
      }
      assert files[..|files|] == files;
      BatchEqualsLoop(k, old(live), files);
      LiveIsSettled(k, old(live), IngestOps(files));
      LiveAppend(k, origin, old(ops), IngestOps(files));
      if old(Reproducible()) {
        ReplaysAsAppend(k, Start(), origin, old(ops), IngestOps(files));
        if Whole() { WholeIngests(k, origin, old(ops), files); }
      }
      live := Resolve(k, live);
    }

    method SignalFailure(node: Text, depth: nat)
      requires Valid()
      modifies this`ops, this`chain, this`live
      ensures Valid() && ops == old(ops) + [Failure(node, depth)]
      ensures live == LiveStep(k, old(live), Failure(node, depth))
      ensures old(Reproducible()) ==> Reproducible()
    {
      hide ReplaysAs, Alike, Live, ApplyAll;
      Commit(Failure(node, depth), Fail(k, live, node, depth));
    }

    /** A recall around a node pages it in first; then the op is filed. */
    method RunRecall(recall: Recall, budget: nat)
      requires Valid()
      modifies this`ops, this`chain, this`live
      ensures Valid() && ops == old(ops) + [Recalled(recall, budget)]
      ensures live == LiveStep(k, old(live), Recalled(recall, budget))
      ensures old(Reproducible()) ==> Reproducible()
    {
      hide ReplaysAs, Alike, Live, ApplyAll;
      Commit(Recalled(recall, budget), EnsureResident(k, live, recall));
    }

    /** Failure pressure on every faulting file, then the op. */
    method FaultIn(files: seq<Text>, depth: nat)
      requires Valid()
      modifies this`ops, this`chain, this`live
      ensures Valid() && ops == old(ops) + [PageFault(files, depth)]
      ensures live == LiveStep(k, old(live), PageFault(files, depth))
      ensures old(Reproducible()) ==> Reproducible()
    {
      hide ReplaysAs, Alike, Live, ApplyAll;
      var m := live;
      for i := 0 to |files|
        invariant m == FailAll(k, live, files[..i], depth)
      {
        assert files[..i + 1][..i] == files[..i];
        m := Fail(k, m, FileNode(files[i]), depth);
      }
      assert files[..|files|] == files;
      Commit(PageFault(files, depth), m);
    }

    /**
     * Support or contradiction; the weight filed is the one applied, custom authority included.
     * The session stays reproducible exactly if no ingest is pending in the log, or resolving again,
     * with the references of the retained files, leaves the edges.
     */
    method AssertEvidence(evidence: Text, claim: Text, supports: bool, weight: real)
      requires Valid()
      modifies this`ops, this`chain, this`live
      ensures Valid()
      ensures var w := if evidence in customAuthorities then customAuthorities[evidence] else weight;
              && ops == old(ops) + [Assert(evidence, claim, supports, w)]
              && live == LiveStep(k, old(live), Assert(evidence, claim, supports, w))
      ensures old(Reproducible()) ==>
                (Reproducible() <==> (PendingIngest(old(ops)) ==> Redo(k, live.base, Progress().m.refs, live.edges) == live.edges))
    {
      var w := if evidence in customAuthorities then customAuthorities[evidence] else weight;
      RecordEdit(Assert(evidence, claim, supports, w));
    }

    method AdoptWeights(weights: seq<real>)
      requires Valid()
      modifies this`ops, this`chain, this`live
      ensures Valid() && ops == old(ops) + [Retune(weights)]
      ensures live == LiveStep(k, old(live), Retune(weights))
      ensures old(Reproducible()) ==>
                (Reproducible() <==> (PendingIngest(old(ops)) ==> Redo(k, live.base, Progress().m.refs, live.edges) == live.edges))
    {
      RecordEdit(Retune(weights));
    }

    method RecordEdit(op: Op)
      requires Valid() && IsEdit(op)
      modifies this`ops, this`chain, this`live
      ensures Valid() && ops == old(ops) + [op] && live == LiveStep(k, old(live), op)
      ensures old(Reproducible()) ==>
                (Reproducible() <==> (PendingIngest(old(ops)) ==> Redo(k, live.base, Progress().m.refs, live.edges) == live.edges))
    {
      hide ReplaysAs, Alike, Live, ApplyAll, Linked, ValidForeign, StepAgrees, Redo, PendingIngest;
      DirtyIsPending(k, Start(), ops);
      if Reproducible() {
        ReplaysAsSnoc(k, Start(), origin, ops, op);
        EditAgrees(k, Progress(), live, op);
      }
      Commit(op, Edit(k, live, op));
    }

    // -------------------------------------------------------------- reading back

    /** `verify_timeline`: the recorded history is intact. */
    method VerifyTimeline() returns (r: LogIntegrity)
      requires ValidChain()
      ensures r.valid
    {
      r := VerifyTimelineParts(h, anchor, folded, ops, chain, commitment(baseline), baselineHash);
    }

    /** The replay loop; in a reproducible session it shows the memory as it was live at that step. */
    method ReplayTo(step: nat) returns (m: Memory<B, F, E>)
      requires Valid()
      ensures m == ReplayAt(step) && !m.pending
      ensures Reproducible() ==> SnapshotOf(m) == SnapshotOf(Live(k, origin, ops[..Tail(step)]))
      ensures Reproducible() && step >= Len() ==> SnapshotOf(m) == SnapshotOf(live)
      ensures Reproducible() && Whole() && step >= Len() ==> m == live
    {
      hide LinkHolds, ApplyOp, Live, Quiet;
      var r := Replaying(Start(), false);
      var tail := Tail(step);
      for i := 0 to tail
        invariant r == ApplyAll(k, Replaying(Start(), false), ops[..i])
      {
        assert ops[..i + 1][..i] == ops[..i];
        r := ApplyOp(k, r, ops[i]);
      }
      m := if r.dirty then Resolve(k, r.m) else r.m;
      ReplayIsSettled(k, Start(), ops[..tail]);
      if step >= Len() {
        assert ops[..tail] == ops;
        if Reproducible() && Whole() { ReplaysAsItself(k, origin, ops); }
      }
    }

    /**
     * Folds all but the last `keep` ops into the baseline. Length, head, chain validity and live
     * memory stay, and replays below the new floor collapse to it. Those at or above it show what
     * they showed, and a reproducible session stays one, exactly if the snapshot keeps the replays:
     * always, when no ingest is retained.
     */
    method Compact(keep: nat)
      requires Valid()
      modifies this`anchor, this`chain, this`baseline, this`baselineHash, this`ops, this`folded, this`origin
      ensures Valid() && Len() == old(Len()) && Head(anchor, chain) == old(Head(anchor, chain))
      ensures |ops| == if old(|ops|) <= keep then old(|ops|) else keep
      ensures ops == old(ops)[|old(ops)| - |ops|..]
      ensures (forall step: nat :: step >= folded ==> SnapshotOf(ReplayAt(step)) == SnapshotOf(old(ReplayAt(step)))) <==>
              KeepsReplays(k, old(Start()), old(ops)[..|old(ops)| - |ops|], ops)
      ensures forall step: nat :: step < folded && old(|ops|) > keep ==>
                SnapshotOf(ReplayAt(step)) == SnapshotOf(old(ReplayAt(folded + |ops| - keep)))
      ensures old(Reproducible()) ==>
                (Reproducible() <==> KeepsReplays(k, old(Start()), old(ops)[..|old(ops)| - |ops|], ops))
      ensures old(Reproducible()) && NoIngest(ops) ==> Reproducible()
    {
      hide ReplaysAs, Linked, ValidForeign, Replayed, Live, KeepsReplays, FromSnapshot;
      if |ops| <= keep {
        assert ops == old(ops)[0..] && ops[..0] == [] && ops[0..] == ops;
        NothingCut(k, Start(), ops);
        return;
      }
      ghost var was, all, fold, floor := Start(), ops, |ops| - keep, folded;
      FoldedReplays(k, was, all, floor, fold);
      Fold(|ops| - keep);
      hide ValidChain, Reproducible, SameReplay;
      forall step: nat
        ensures SnapshotOf(ReplayAt(step)) == SnapshotOf(old(ReplayAt(step))) <==> SameReplay(k, was, all, floor, fold, step)
      {
        SameReplayMeans(k, was, all, floor, fold, step);
      }
      forall step: nat | step < folded
        ensures ReplayAt(step) == Start()
      {
        ReplayNothing(k, Start());
        assert ops[..Tail(step)] == [];
      }
      FromSnapshotShows(k, was, all[..fold]);
    }

    /** The first `fold` ops give way to a snapshot of their replay; the last link folded becomes the anchor. */
    method Fold(fold: nat)
      requires Valid() && 0 < fold <= |ops|
      modifies this`anchor, this`chain, this`baseline, this`baselineHash, this`ops, this`folded, this`origin
      ensures Valid() && Head(anchor, chain) == old(Head(anchor, chain))
      ensures ops == old(ops)[fold..] && folded == old(folded) + fold
      ensures Start() == old(FromSnapshot(k, Start(), ops[..fold])) && origin == old(Live(k, origin, ops[..fold]))
      ensures old(Reproducible()) ==> (Reproducible() <==> KeepsReplays(k, old(Start()), old(ops)[..fold], ops))
      ensures old(Reproducible()) && NoIngest(ops) ==> Reproducible()
    {
      hide ReplaysAs, ValidChain, Replayed, Live, KeepsReplays;
      var floor := ReplayTo(folded + fold);
      ghost var before, after := ops[..fold], ops[fold..];
      assert floor == Replayed(k, Start(), before) && before + after == ops;
      LiveIsSettled(k, origin, before);
      LiveAppend(k, origin, before, after);
      if Reproducible() { SnapshotReplaysAs(k, Start(), origin, before, after); }
      CutTimeline(fold, SnapshotOf(floor));
      origin := Live(k, origin, before);
    }

    /** The timeline goes on from `snapshot`: the chain keeps its head. */
    method CutTimeline(fold: nat, snapshot: Snapshot<B, E>)
      requires ValidChain() && 0 < fold <= |ops|
      modifies this`anchor, this`chain, this`baseline, this`baselineHash, this`ops, this`folded
      ensures ValidChain() && Head(anchor, chain) == old(Head(anchor, chain))
      ensures ops == old(ops)[fold..] && folded == old(folded) + fold && baseline == Some(snapshot)
    {
      hide Linked, ValidForeign;
      LinkedLength(h, anchor, folded, ops, chain);
      LinkedSuffix(h, anchor, folded, ops, chain, fold);
      anchor := chain[fold - 1];
      chain := chain[fold..];
      baseline := Some(snapshot);
      baselineHash := commitment(baseline);
      ops := ops[fold..];
      folded := folded + fold;
    }

    /** A branch at an earlier step: a valid prefix chain whose live memory is its own replay; the trunk is untouched. */
    method ForkAt(step: nat) returns (f: AgentSession<B, F, E>)
      requires Valid()
      ensures fresh(f) && f.Valid() && f.k == k
      ensures f.folded == folded && f.anchor == anchor && f.Start() == Start() && f.Whole()
      ensures f.Len() == if step > Len() then Len() else if step < folded then folded else step
      ensures f.ops == ops[..|f.ops|] && f.chain == chain[..|f.ops|]
      ensures f.live == f.ReplayAt(f.Len()) && f.live == ReplayAt(step)
      ensures Reproducible() ==> f.Reproducible()
      ensures f.foreign == foreign && f.knownKeys == knownKeys && f.agent == agent
    {
      hide ReplaysAs, LinkHolds, Replayed, Live, Quiet;
      var at := if step > Len() then Len() else if step < folded then folded else step;
      var tail := at - folded;
      var m := ReplayTo(at);
      LinkedPrefix(h, anchor, folded, ops, chain, tail);
      if Reproducible() { PrefixReplaysItself(k, Start(), origin, ops, tail); }
      f := new AgentSession<B, F, E>.Branch(this, m, ops[..tail], chain[..tail]);
      assert f.ops[..|f.ops|] == f.ops;
    }

    // -------------------------------------------------------------- exchange

    method ExportBundle(since: nat) returns (r: Outcome<SyncBundle>)
      requires ValidChain()
      ensures r == match Export(agent, anchor, folded, ops, chain, since)
                   case Accepted(b) => Accepted(SignWith(signingSeed, publicOf, sign, b))
                   case Refused(e) => Refused(e)
    {
      if agent == [] {
        return Refused(NoAgentId);
      }
      if since < folded {
        return Refused(CompactedHistory);
      }
      var start := if since - folded <= |ops| then since - folded else |ops|;
      var from := if start == 0 then anchor else chain[start - 1];
      var bundle := SyncBundle(1, agent, since, from, ops[start..], chain[start..], None, None);
      if signingSeed.Some? {
        var signature := sign(bundle, signingSeed.value);
        bundle := bundle.(pubkey := Some(publicOf(signingSeed.value)), sig := Some(signature));
      }
      return Accepted(bundle);
    }

    /** The link loop of the import. */
    method CheckLinks(b: SyncBundle) returns (bad: Option<nat>)
      requires |b.ops| == |b.chain|
      ensures bad == FirstBadLink(h, b, |b.ops|)
    {
      var prev := b.anchor;
      for i := 0 to |b.ops|
        invariant prev == Prev(b.anchor, b.chain, i)
        invariant FirstBadLink(h, b, i) == None
      {
        if h(prev, b.firstSeq + i, b.ops[i]) != b.chain[i] {
          BadLinkSticks(h, b, i + 1, |b.ops|);
          return Some(i);
        }
        prev := b.chain[i];
      }
      return None;
    }

    /** The overlap loop: past the known end there is nothing left to compare. */
    method CheckOverlap(known: seq<Hash>, b: SyncBundle) returns (conflict: Option<nat>)
      ensures conflict == FirstConflict(known, b, |b.chain|)
    {
      for i := 0 to |b.chain|
        invariant FirstConflict(known, b, i) == None
      {
        if b.firstSeq + i >= |known| {
          NoConflictPastEnd(known, b, i, |b.chain|);
          return None;
        }
        if known[b.firstSeq + i] != b.chain[i] {
          ConflictSticks(known, b, i + 1, |b.chain|);
          return Some(i);
        }
      }
      return None;
    }

    /** The checks of an import, in their order. */
    method AdmitBundle(b: SyncBundle) returns (r: Outcome<Option<Text>>)
      requires |Known(foreign, b.agent).ops| == |Known(foreign, b.agent).chain|
      ensures r == Admit(h, check, agent, foreign, knownKeys, b)
    {
      hide LinkHolds, FirstBadLink, FirstConflict;
      if b.agent == [] {
        return Refused(Tampered(NamelessBundle));
      }
      if b.agent == agent {
        return Refused(SelfImport);
      }
      var auth := Authenticate(check, knownKeys, b);
      if auth.Refused? {
        return Refused(auth.error);
      }
      if |b.ops| != |b.chain| {
        return Refused(Tampered(Unpaired(|b.ops|, |b.chain|)));
      }
      if b.firstSeq == 0 && b.anchor != GENESIS {
        return Refused(Tampered(GenesisNotAnchored));
      }
      var bad := CheckLinks(b);
      if bad.Some? {
        return Refused(Tampered(LinkMismatch(b.firstSeq + bad.value + 1)));
      }
      var known := Known(foreign, b.agent);
      if b.firstSeq > |known.ops| {
        return Refused(Gap(|known.ops|, b.firstSeq));
      }
      if b.agent in foreign {
        if b.firstSeq > 0 && b.anchor != known.chain[b.firstSeq - 1] {
          return Refused(Diverged(b.firstSeq));
        }
        var conflict := CheckOverlap(known.chain, b);
        if conflict.Some? {
          return Refused(Diverged(b.firstSeq + conflict.value + 1));
        }
      }
      return auth;
    }

    /** Verify before trusting; a refused bundle changes nothing. */
    method ImportBundle(b: SyncBundle) returns (r: Outcome<nat>)
      requires ValidChain()
      modifies this`foreign, this`knownKeys
      ensures ValidChain()
      ensures Imported(r, foreign, knownKeys) == Import(h, check, agent, old(foreign), old(knownKeys), b)
      ensures r.Refused? ==> foreign == old(foreign) && knownKeys == old(knownKeys)
      ensures forall a :: a in old(foreign) ==> a in foreign && old(foreign)[a].ops <= foreign[a].ops
      ensures forall a :: a in old(knownKeys) ==> a in knownKeys && knownKeys[a] == old(knownKeys)[a]
    {
      hide Linked, Admit, Segment, NoCollisionWith;
      ImportIsSafe(h, check, agent, foreign, knownKeys, b);
      LinkedLengths(h, foreign, b.agent);
      var admitted := AdmitBundle(b);
      if admitted.Refused? {
        return Refused(admitted.error);
      }
      AdmittedLengths(h, check, agent, foreign, knownKeys, b);
      var known := Known(foreign, b.agent);
      var gap := |known.ops| - b.firstSeq;
      var overlap := if gap <= |b.ops| then gap else |b.ops|;
      var added := |b.ops| - overlap;
      foreign := foreign[b.agent := ForeignLog(known.ops + b.ops[overlap..], known.chain + b.chain[overlap..])];
      if admitted.value.Some? {
        knownKeys := knownKeys[b.agent := admitted.value.value];
      }
      return Accepted(added);
    }

    /** All known streams, replayed in agent order on an empty memory. */
    method MergeAll() returns (m: Memory<B, F, E>)
      ensures m == MergedView(k, OwnStreams.StreamId(agent), ops, foreign)
    {
      var own := if agent == [] then OwnStreams.LOCAL else agent;
      hide InAgentOrder, ApplyOp;
      var all := InAgentOrder(Streams(own, ops, foreign));
      var r := Replaying(Empty(k), false);
      for i := 0 to |all|
        invariant r == ApplyAll(k, Replaying(Empty(k), false), all[..i])
      {
        assert all[..i + 1][..i] == all[..i];
        r := ApplyOp(k, r, all[i]);
      }
      assert all[..|all|] == all;
      m := if r.dirty then Resolve(k, r.m) else r.m;
    }
  }

  lemma LinkedLength(h: LinkHash, anchor: Hash, floor: nat, ops: seq<Op>, chain: seq<Hash>)
    requires Linked(h, anchor, floor, ops, chain)
    ensures |chain| == |ops|
  {
  }

  /** The replay of step `step` shows the same before folding `fold` ops above `floor`, and after. */
  ghost predicate SameReplay<B, F, E>(k: Kernel<B, F, E>, was: Memory<B, F, E>, ops: seq<Op>, floor: nat, fold: nat, step: nat)
    requires fold <= |ops|
  {
    SnapshotOf(Replayed(k, FromSnapshot(k, was, ops[..fold]), ops[fold..][..TailAt(floor + fold, |ops| - fold, step)]))
    == SnapshotOf(Replayed(k, was, ops[..TailAt(floor, |ops|, step)]))
  }

  lemma SameReplayMeans<B, F, E>(k: Kernel<B, F, E>, was: Memory<B, F, E>, ops: seq<Op>, floor: nat, fold: nat, step: nat)
    requires fold <= |ops|
    ensures SameReplay(k, was, ops, floor, fold, step) <==>
            SnapshotOf(Replayed(k, FromSnapshot(k, was, ops[..fold]), ops[fold..][..TailAt(floor + fold, |ops[fold..]|, step)]))
            == SnapshotOf(Replayed(k, was, ops[..TailAt(floor, |ops|, step)]))
  {
    hide Replayed, FromSnapshot;
  }

  /** After folding, the replays at or above the new floor show the same exactly if the snapshot keeps them. */
  lemma FoldedReplays<B, F, E>(k: Kernel<B, F, E>, was: Memory<B, F, E>, ops: seq<Op>, floor: nat, fold: nat)
    requires !was.pending && fold <= |ops|
    ensures (forall step: nat :: step >= floor + fold ==> SameReplay(k, was, ops, floor, fold, step)) <==>
            KeepsReplays(k, was, ops[..fold], ops[fold..])
  {
    hide Replayed, KeepsReplays, FromSnapshot;
    var a, b := ops[..fold], ops[fold..];
    SnapshotSufficesExactly(k, was, a, b);
    forall step: nat | step >= floor + fold
      ensures var t := TailAt(floor + fold, |b|, step);
              SameReplay(k, was, ops, floor, fold, step) <==>
              SnapshotOf(Replayed(k, FromSnapshot(k, was, a), b[..t])) == SnapshotOf(Replayed(k, was, a + b[..t]))
    {
      assert ops[..TailAt(floor, |ops|, step)] == a + b[..TailAt(floor + fold, |b|, step)];
    }
    if forall step: nat :: step >= floor + fold ==> SameReplay(k, was, ops, floor, fold, step) {
      forall t | 0 <= t <= |b|
        ensures SnapshotOf(Replayed(k, FromSnapshot(k, was, a), b[..t])) == SnapshotOf(Replayed(k, was, a + b[..t]))
      {
        assert SameReplay(k, was, ops, floor, fold, floor + fold + t) && TailAt(floor + fold, |b|, floor + fold + t) == t;
      }
    }
  }

  lemma FromSnapshotShows<B, F, E>(k: Kernel<B, F, E>, m: Memory<B, F, E>, a: seq<Op>)
    ensures SnapshotOf(FromSnapshot(k, m, a)) == SnapshotOf(Replayed(k, m, a))
  {
  }

  /** An ingest agrees with its replay if the replay's references resolve to the live edges. */
  lemma IngestAgrees<B, F, E>(k: Kernel<B, F, E>, c: Replaying<B, F, E>, l: Memory<B, F, E>, uri: Text, source: Text)
    requires !l.pending
    ensures var next := Resolve(k, IngestDeferred(k, l, uri, source));
            Alike(k, c, Replaying(l, false)) ==>
              (StepAgrees(k, c, Replaying(l, false), Ingest(uri, source)) <==>
               Redo(k, next.base, ApplyOp(k, c, Ingest(uri, source)).m.refs, KeptEdges(k, l.base, l.edges, uri, source)) == next.edges)
  {
    hide Redo, KeptEdges, IngestRefs;
  }

  /** With nothing folded away only an edit can tell a replay from the live memory. */
  lemma WholeStep<B, F, E>(k: Kernel<B, F, E>, origin: Memory<B, F, E>, ops: seq<Op>, op: Op)
    requires !origin.pending && ReplaysAs(k, origin, origin, ops) && !IsEdit(op)
    ensures ReplaysAs(k, origin, origin, ops + [op])
  {
    hide ReplaysAs, Quiet, ApplyAll;
    ReplaysAsItself(k, origin, ops);
    ReplaysAsItself(k, origin, ops + [op]);
    QuietSnoc(k, origin, ops, op);
  }

  lemma {:induction false} WholeIngests<B, F, E>(k: Kernel<B, F, E>, origin: Memory<B, F, E>, ops: seq<Op>, files: seq<(Text, Text)>)
    requires !origin.pending && ReplaysAs(k, origin, origin, ops)
    ensures ReplaysAs(k, origin, origin, ops + IngestOps(files))
    decreases |files|
  {
    hide ReplaysAs;
    if files == [] {
      assert ops + IngestOps(files) == ops;
    } else {
      var n := |files| - 1;
      WholeIngests(k, origin, ops, files[..n]);
      var before, last := ops + IngestOps(files[..n]), Ingest(files[n].0, files[n].1);
      assert ops + IngestOps(files) == before + [last];
      WholeStep(k, origin, before, last);
    }
  }

  /** A prefix of a log whose replay shows the live memories, taken as a history of its own. */
  lemma PrefixReplaysItself<B, F, E>(k: Kernel<B, F, E>, start: Memory<B, F, E>, origin: Memory<B, F, E>, ops: seq<Op>, n: nat)
    requires !start.pending && !origin.pending && ReplaysAs(k, start, origin, ops) && n <= |ops|
    ensures ReplaysAs(k, start, start, ops[..n]) && Replayed(k, start, ops[..n]) == Live(k, start, ops[..n])
  {
    hide ReplaysAs, Quiet, Agree, Live, Replayed;
    ReplaysAsExactly(k, start, origin, ops);
    ReplaysAsIsQuiet(k, start, origin, ops);
    QuietPrefix(k, start, ops, n);
    ReplaysAsItself(k, start, ops[..n]);
  }

  lemma ApplySnoc<B, F, E>(k: Kernel<B, F, E>, r: Replaying<B, F, E>, ops: seq<Op>, op: Op)
    ensures ApplyAll(k, r, ops + [op]) == ApplyOp(k, ApplyAll(k, r, ops), op)
  {
    assert (ops + [op])[..|ops|] == ops;
  }

  lemma LiveSnoc<B, F, E>(k: Kernel<B, F, E>, m: Memory<B, F, E>, ops: seq<Op>, op: Op)
    ensures Live(k, m, ops + [op]) == LiveStep(k, Live(k, m, ops), op)
  {
    assert (ops + [op])[..|ops|] == ops;
  }

  lemma LiveOne<B, F, E>(k: Kernel<B, F, E>, m: Memory<B, F, E>, op: Op)
    ensures Live(k, m, [op]) == LiveStep(k, m, op)
  {
    assert [op][..0] == [];
  }

  lemma ReplayNothing<B, F, E>(k: Kernel<B, F, E>, m: Memory<B, F, E>)
    ensures Replayed(k, m, []) == m
  {
  }

  lemma {:induction false} BadLinkSticks(h: LinkHash, b: SyncBundle, i: nat, n: nat)
    requires i <= n <= |b.ops| && n <= |b.chain| && FirstBadLink(h, b, i).Some?
    ensures FirstBadLink(h, b, n) == FirstBadLink(h, b, i)
    decreases n
  {
    if i < n { BadLinkSticks(h, b, i, n - 1); }
  }

  lemma {:induction false} ConflictSticks(known: seq<Hash>, b: SyncBundle, i: nat, n: nat)
    requires i <= n <= |b.chain| && FirstConflict(known, b, i).Some?
    ensures FirstConflict(known, b, n) == FirstConflict(known, b, i)
    decreases n
  {
    if i < n { ConflictSticks(known, b, i, n - 1); }
  }

  lemma {:induction false} NoConflictPastEnd(known: seq<Hash>, b: SyncBundle, i: nat, n: nat)
    requires i <= n <= |b.chain| && b.firstSeq + i >= |known| && FirstConflict(known, b, i) == None
    ensures FirstConflict(known, b, n) == None
    decreases n
  {
    if i < n { NoConflictPastEnd(known, b, i, n - 1); }
  }

  lemma OneLink(h: LinkHash, prev: Hash, step: nat, op: Op, link: Hash)
    requires link == h(prev, step, op)
    ensures Linked(h, prev, step, [op], [link])
  {
    assert LinkHolds(h, prev, step, [op], [link], 0);
  }
}
