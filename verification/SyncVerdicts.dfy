/** Exactly which bundles are accepted, and why the others are refused. */
module SyncVerdicts {
  import opened Results
  import opened Keys
  import opened Replay
  import opened HashChain
  import opened Sync

  /** The bundle recomputes, and a bundle from step 0 starts at genesis. */
  ghost predicate WellFormed(h: LinkHash, b: SyncBundle) {
    Linked(h, b.anchor, b.firstSeq, b.ops, b.chain) && (b.firstSeq == 0 ==> b.anchor == GENESIS)
  }

  /** One history holds both what is known and the bundle. */
  ghost predicate OneHistory(h: LinkHash, known: seq<Op>, b: SyncBundle) {
    exists log :: known <= log && Segment(h, b, log)
  }

  lemma SegmentIsWellFormed(h: LinkHash, b: SyncBundle, log: seq<Op>)
    requires Segment(h, b, log)
    ensures WellFormed(h, b)
  {
    hide ChainOver, LinkHolds;
    var chain := ChainOver(h, GENESIS, 0, log);
    var end := b.firstSeq + |b.ops|;
    ChainIsUnique(h, GENESIS, 0, log, chain);
    LinkedPrefix(h, GENESIS, 0, log, chain, end);
    LinkedSuffix(h, GENESIS, 0, log[..end], chain[..end], b.firstSeq);
    assert log[..end][b.firstSeq..] == b.ops && chain[..end][b.firstSeq..] == b.chain;
  }

  /** Known log and bundle on one history agree link by link. */
  lemma OneHistoryAgrees(h: LinkHash, known: ForeignLog, b: SyncBundle, log: seq<Op>)
    requires Linked(h, GENESIS, 0, known.ops, known.chain)
    requires known.ops <= log && Segment(h, b, log) && b.firstSeq <= |known.ops|
    ensures Continues(known, b)
  {
    hide ChainOver, LinkHolds;
    ChainPrefix(h, log, |known.ops|);
    assert log[..|known.ops|] == known.ops;
    ChainIsUnique(h, GENESIS, 0, known.ops, known.chain);
  }

  lemma AgreeingIsOneHistory(h: LinkHash, known: ForeignLog, b: SyncBundle)
    requires NoCollisionWith(h, known, b) && Linked(h, GENESIS, 0, known.ops, known.chain)
    requires Linked(h, b.anchor, b.firstSeq, b.ops, b.chain) && Continues(known, b)
    ensures OneHistory(h, known.ops, b)
  {
    hide Segment, LinkHolds, NoCollisionWith;
    ExtendedIsLinked(h, known, b);
    ExtendedIsLog(h, known, b);
    assert known.ops <= Extended(known, b).ops && Segment(h, b, Extended(known, b).ops);
  }

  /** The continuity check, in the terms it establishes. */
  lemma ContinuityDecides(known: ForeignLog, firstContact: bool, b: SyncBundle)
    requires |known.ops| == |known.chain| && |b.ops| == |b.chain|
    requires (firstContact ==> known.ops == []) && (b.firstSeq == 0 ==> b.anchor == GENESIS)
    ensures var c := CheckContinuity(known, firstContact, b);
            && (c == None <==> Continues(known, b))
            && (c.Some? ==> if b.firstSeq > |known.ops| then c.value.Gap? else c.value.Diverged?)
  {
    hide FirstConflict;
    NoConflict(known.chain, b, |b.chain|);
  }

  /** Continuity is refused with a gap or a divergence, exactly when there is one. */
  lemma ContinuityMeans(h: LinkHash, known: ForeignLog, firstContact: bool, b: SyncBundle)
    requires NoCollisionWith(h, known, b) && Linked(h, GENESIS, 0, known.ops, known.chain)
    requires firstContact ==> known.ops == []
    requires WellFormed(h, b)
    ensures var c := CheckContinuity(known, firstContact, b);
            && (c.Some? && c.value.Gap? <==> b.firstSeq > |known.ops|)
            && (c.Some? && c.value.Diverged? <==> b.firstSeq <= |known.ops| && !OneHistory(h, known.ops, b))
            && (c == None <==> b.firstSeq <= |known.ops| && OneHistory(h, known.ops, b))
  {
    hide LinkHolds, CheckContinuity, OneHistory, NoCollisionWith, Continues;
    ContinuityDecides(known, firstContact, b);
    if b.firstSeq <= |known.ops| {
      if Continues(known, b) {
        AgreeingIsOneHistory(h, known, b);
      } else if OneHistory(h, known.ops, b) {
        OneHistoryAgrees(h, known, b, History(h, known.ops, b));
      }
    } else {
      LateDoesNotContinue(known, b);
    }
  }

  lemma LateDoesNotContinue(known: ForeignLog, b: SyncBundle)
    requires b.firstSeq > |known.ops|
    ensures !Continues(known, b)
  {
  }

  ghost function History(h: LinkHash, known: seq<Op>, b: SyncBundle): (log: seq<Op>)
    requires OneHistory(h, known, b)
    ensures known <= log && Segment(h, b, log)
  {
    var log :| known <= log && Segment(h, b, log);
    log
  }

  /**
   * The verdict on an authenticated bundle from another agent: accepted if and only if it
   * starts no later than the known end and one history holds both; a gap if it starts later;
   * divergence if it recomputes but no single history holds both; tampering if it does not recompute.
   */
  lemma Verdict(h: LinkHash, check: SigCheck, own: AgentId, foreign: Foreign, pins: Pins, b: SyncBundle)
    requires ValidForeign(h, foreign) && NoCollisionWith(h, Known(foreign, b.agent), b)
    requires b.agent != [] && b.agent != own && Authenticate(check, pins, b).Accepted?
    ensures var known := Known(foreign, b.agent).ops;
            var r := Import(h, check, own, foreign, pins, b).outcome;
            && (r.Accepted? <==> b.firstSeq <= |known| && OneHistory(h, known, b))
            && (r.Refused? ==> r.error.Tampered? || r.error.Gap? || r.error.Diverged?)
            && (r.Refused? && r.error.Tampered? <==> !WellFormed(h, b))
            && (r.Refused? && r.error.Gap? <==> WellFormed(h, b) && b.firstSeq > |known|)
            && (r.Refused? && r.error.Diverged? <==> WellFormed(h, b) && b.firstSeq <= |known| && !OneHistory(h, known, b))
  {
    hide LinkHolds, FirstBadLink, OneHistory, CheckContinuity, Authenticate, Extended, NoCollisionWith;
    var known := Known(foreign, b.agent);
    KnownIsLinked(h, foreign, b.agent);
    if |b.ops| == |b.chain| { NoBadLink(h, b, |b.ops|); }
    if WellFormed(h, b) {
      ContinuityMeans(h, known, b.agent !in foreign, b);
      OnlyContinuityErrors(known, b.agent !in foreign, b);
    } else if OneHistory(h, known.ops, b) {
      SegmentIsWellFormed(h, b, History(h, known.ops, b));
    }
  }

  /**
   * A bundle that is on one history with what is known is never refused as tampered or
   * divergent, whatever the hash: it is accepted, or it comes too early.
   */
  lemma OneHistoryIsAdmitted(h: LinkHash, check: SigCheck, own: AgentId, foreign: Foreign, pins: Pins, b: SyncBundle)
    requires ValidForeign(h, foreign) && OneHistory(h, Known(foreign, b.agent).ops, b)
    requires b.agent != [] && b.agent != own && Authenticate(check, pins, b).Accepted?
    ensures var r := Import(h, check, own, foreign, pins, b).outcome;
            if b.firstSeq <= |Known(foreign, b.agent).ops| then r.Accepted? else r.Refused? && r.error.Gap?
  {
    hide LinkHolds, FirstBadLink, OneHistory, CheckContinuity, Authenticate, Extended, Continues, Segment;
    var known := Known(foreign, b.agent);
    KnownIsLinked(h, foreign, b.agent);
    var log := History(h, known.ops, b);
    SegmentIsWellFormed(h, b, log);
    NoBadLink(h, b, |b.ops|);
    ContinuityDecides(known, b.agent !in foreign, b);
    if b.firstSeq <= |known.ops| {
      OneHistoryAgrees(h, known, b, log);
    } else {
      LateDoesNotContinue(known, b);
    }
  }

  lemma OnlyContinuityErrors(known: ForeignLog, firstContact: bool, b: SyncBundle)
    requires |known.ops| == |known.chain|
    ensures var c := CheckContinuity(known, firstContact, b); c.Some? ==> c.value.Gap? || c.value.Diverged?
  {
  }

  // ---------------------------------------------------------------- exports

  /** An export from a step the log has is a stretch of the log. */
  lemma ExportIsSegment(h: LinkHash, agent: AgentId, ops: seq<Op>, since: nat)
    requires agent != [] && since <= |ops|
    ensures var e := Export(agent, GENESIS, 0, ops, ChainOver(h, GENESIS, 0, ops), since);
            e.Accepted? && e.value.agent == agent && e.value.firstSeq == since && Segment(h, e.value, ops)
  {
    hide ChainOver, Segment;
    var chain := ChainOver(h, GENESIS, 0, ops);
    var b := SyncBundle(1, agent, since, Prev(GENESIS, chain, since), ops[since..], chain[since..], None, None);
    TailIsSegment(h, b, ops);
  }

  lemma TailIsSegment(h: LinkHash, b: SyncBundle, ops: seq<Op>)
    requires b.firstSeq <= |ops| && b.ops == ops[b.firstSeq..]
    requires b.anchor == Prev(GENESIS, ChainOver(h, GENESIS, 0, ops), b.firstSeq)
    requires b.chain == ChainOver(h, GENESIS, 0, ops)[b.firstSeq..]
    ensures Segment(h, b, ops)
  {
    hide ChainOver;
    DropIsSlice(ops, b.firstSeq);
    DropIsSlice(ChainOver(h, GENESIS, 0, ops), b.firstSeq);
  }

  lemma DropIsSlice<T>(s: seq<T>, i: nat)
    requires i <= |s|
    ensures s[i..] == s[i..|s|] && i + |s[i..]| == |s|
  {
  }

  /** An export asked for past the end carries no ops and a first step the log never reached. */
  lemma LateExport(h: LinkHash, agent: AgentId, ops: seq<Op>, since: nat)
    requires agent != [] && since > |ops|
    ensures var chain := ChainOver(h, GENESIS, 0, ops);
            Export(agent, GENESIS, 0, ops, chain, since)
            == Accepted(SyncBundle(1, agent, since, Head(GENESIS, chain), [], [], None, None))
  {
    hide ChainOver;
    var chain := ChainOver(h, GENESIS, 0, ops);
    assert ops[|ops|..] == [] && chain[|ops|..] == [];
  }

  /** What an uncompacted session with the log `ops` exports, before signing. */
  function ExportedBy(h: LinkHash, agent: AgentId, ops: seq<Op>, since: nat): SyncBundle
    requires agent != []
  {
    Export(agent, GENESIS, 0, ops, ChainOver(h, GENESIS, 0, ops), since).value
  }

  /** The link of a log that a bundle from step `since` is checked against. */
  function LinkBefore(h: LinkHash, log: seq<Op>, since: nat): Hash
    requires 0 < since <= |log|
  {
    ChainOver(h, GENESIS, 0, log)[since - 1]
  }

  function HeadOf(h: LinkHash, log: seq<Op>): Hash {
    Head(GENESIS, ChainOver(h, GENESIS, 0, log))
  }

  lemma ExportedTerms(h: LinkHash, agent: AgentId, ops: seq<Op>, since: nat)
    requires agent != []
    ensures var b := ExportedBy(h, agent, ops, since);
            && b.agent == agent && b.firstSeq == since
            && (since <= |ops| ==> Segment(h, b, ops))
            && (since > |ops| ==> b.ops == [] && b.chain == [] && b.anchor == HeadOf(h, ops))
  {
    hide ChainOver, Segment;
    if since <= |ops| { ExportIsSegment(h, agent, ops, since); } else { LateExport(h, agent, ops, since); }
  }

  /**
   * A receiver that holds the first `n` ops of what the exporter's log has become judges an
   * export of the earlier log `ops`, exactly: it is accepted if it was asked for within that log, or
   * if the link before its first step happens to be the head it was anchored at; otherwise the
   * honest sender is called divergent.
   */
  lemma ExportIsJudgedByItsAnchor(h: LinkHash, check: SigCheck, own: AgentId, foreign: Foreign, pins: Pins,
                                  agent: AgentId, ops: seq<Op>, since: nat, full: seq<Op>, n: nat)
    requires agent != [] && agent != own && ops <= full && since <= n <= |full|
    requires ValidForeign(h, foreign) && Known(foreign, agent).ops == full[..n]
    requires Authenticate(check, pins, ExportedBy(h, agent, ops, since)).Accepted?
    ensures ExportedBy(h, agent, ops, since).agent == agent
    ensures var r := Import(h, check, own, foreign, pins, ExportedBy(h, agent, ops, since)).outcome;
            && (r.Accepted? <==> since <= |ops| || HeadOf(h, ops) == LinkBefore(h, full, since))
            && (r.Refused? ==> r.error == Diverged(since))
  {
    hide ExportedBy, Authenticate, Import, HeadOf, LinkBefore, Segment, OneHistory, Linked;
    var b := ExportedBy(h, agent, ops, since);
    ExportedTerms(h, agent, ops, since);
    if since <= |ops| {
      SegmentOfLonger(h, b, ops, full);
      assert OneHistory(h, full[..n], b) by { OneHistoryOf(h, full[..n], b, full); }
      OneHistoryIsAdmitted(h, check, own, foreign, pins, b);
    } else {
      LateExportIsJudged(h, check, own, foreign, pins, b, full, n);
    }
  }

  lemma OneHistoryOf(h: LinkHash, known: seq<Op>, b: SyncBundle, log: seq<Op>)
    requires known <= log && Segment(h, b, log)
    ensures OneHistory(h, known, b)
  {
  }

  lemma LateExportIsJudged(h: LinkHash, check: SigCheck, own: AgentId, foreign: Foreign, pins: Pins, b: SyncBundle, full: seq<Op>, n: nat)
    requires b.agent != [] && b.agent != own && 0 < b.firstSeq <= n <= |full| && b.ops == [] && b.chain == []
    requires ValidForeign(h, foreign) && Known(foreign, b.agent).ops == full[..n]
    requires Authenticate(check, pins, b).Accepted?
    ensures Import(h, check, own, foreign, pins, b).outcome ==
            if b.anchor == LinkBefore(h, full, b.firstSeq) then Accepted(0) else Refused(Diverged(b.firstSeq))
  {
    hide ChainOver, LinkHolds, Authenticate;
    var known := Known(foreign, b.agent);
    KnownIsLinked(h, foreign, b.agent);
    ChainIsUnique(h, GENESIS, 0, known.ops, known.chain);
    ChainPrefix(h, full, n);
  }

  /** With distinct links: an honest export is accepted by whoever has reached its first step if and only if the log had reached it. */
  lemma HonestExportExactly(h: LinkHash, check: SigCheck, own: AgentId, foreign: Foreign, pins: Pins,
                            agent: AgentId, ops: seq<Op>, since: nat, full: seq<Op>, n: nat)
    requires agent != [] && agent != own && ops <= full && since <= n <= |full|
    requires ValidForeign(h, foreign) && Known(foreign, agent).ops == full[..n]
    requires Authenticate(check, pins, ExportedBy(h, agent, ops, since)).Accepted?
    requires DistinctLinks(h, full)
    ensures ExportedBy(h, agent, ops, since).agent == agent
    ensures Import(h, check, own, foreign, pins, ExportedBy(h, agent, ops, since)).outcome.Accepted? <==> since <= |ops|
  {
    hide ExportedBy, Authenticate, Import, ChainOver, Linked;
    ExportIsJudgedByItsAnchor(h, check, own, foreign, pins, agent, ops, since, full, n);
    ChainPrefix(h, full, |ops|);
    assert full[..|ops|] == ops;
  }
}
