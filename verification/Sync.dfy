/** Exchange of chain-verified timeline segments between agents. */
module Sync {
  import opened Results
  import opened Keys
  import opened Replay
  import opened HashChain

  type AgentId = Key

  datatype SyncBundle = SyncBundle(
    version: nat,
    agent: AgentId,
    firstSeq: nat,
    anchor: Hash,
    ops: seq<Op>,
    chain: seq<Hash>,
    pubkey: Option<Text>,
    sig: Option<Text>
  )

  datatype Mutation =
    | NamelessBundle
    | Unpaired(ops: nat, links: nat)
    | GenesisNotAnchored
    | LinkMismatch(step: nat)

  datatype SyncError =
    | NoAgentId
    | SelfImport
    | CompactedHistory
    | Gap(known: nat, bundleStart: nat)
    | Tampered(detail: Mutation)
    | Diverged(at: nat)
    | BadSignature
    | KeyMismatch(agent: AgentId)
    | UnsignedFromPinned(agent: AgentId)
    | SignedUnsupported

  datatype Outcome<+T> = Accepted(value: T) | Refused(error: SyncError)

  datatype ForeignLog = ForeignLog(ops: seq<Op>, chain: seq<Hash>)

  type Foreign = map<AgentId, ForeignLog>
  type Pins = map<AgentId, Text>

  /** Signature verification: the error of a bundle whose signature does not check, if any. */
  type SigCheck = (SyncBundle, Text, Text) -> Option<SyncError>

  function Known(foreign: Foreign, agent: AgentId): ForeignLog {
    if agent in foreign then foreign[agent] else ForeignLog([], [])
  }

  // ---------------------------------------------------------------- export

  /** The unsigned bundle of everything from absolute step `since` on. */
  function Export(agent: AgentId, anchor: Hash, folded: nat, ops: seq<Op>, chain: seq<Hash>, since: nat): Outcome<SyncBundle>
    requires |ops| == |chain|
  {
    if agent == [] then Refused(NoAgentId)
    else if since < folded then Refused(CompactedHistory)
    else
      var start := if since - folded <= |ops| then since - folded else |ops|;
      Accepted(SyncBundle(1, agent, since, Prev(anchor, chain, start), ops[start..], chain[start..], None, None))
  }

  /** The export of a workspace that holds a signing seed: the verifying key, and a signature over the bundle without either. */
  function SignWith(seed: Option<Text>, publicOf: Text -> Text, sign: (SyncBundle, Text) -> Text, b: SyncBundle): SyncBundle {
    match seed
    case None => b
    case Some(s) => b.(pubkey := Some(publicOf(s)), sig := Some(sign(b, s)))
  }

  // ---------------------------------------------------------------- import

  /** Checks who speaks; on success the key to pin once the import is through. */
  function Authenticate(check: SigCheck, pins: Pins, b: SyncBundle): Outcome<Option<Text>> {
    match (b.pubkey, b.sig)
    case (Some(key), Some(sig)) =>
      var bad := check(b, key, sig);
      if bad.Some? then Refused(bad.value)
      else if b.agent in pins then
        if pins[b.agent] != key then Refused(KeyMismatch(b.agent)) else Accepted(None)
      else Accepted(Some(key))
    case (None, None) =>
      if b.agent in pins then Refused(UnsignedFromPinned(b.agent)) else Accepted(None)
    case _ => Refused(BadSignature)
  }

  /** The first of the first `n` links that does not recompute. */
  function FirstBadLink(h: LinkHash, b: SyncBundle, n: nat): Option<nat>
    requires n <= |b.ops| && n <= |b.chain|
  {
    if n == 0 then None
    else
      var earlier := FirstBadLink(h, b, n - 1);
      if earlier.Some? then earlier
      else if LinkHolds(h, b.anchor, b.firstSeq, b.ops, b.chain, n - 1) then None
      else Some(n - 1)
  }

  /** The first of the first `n` bundle links that a known chain contradicts. */
  function FirstConflict(known: seq<Hash>, b: SyncBundle, n: nat): Option<nat>
    requires n <= |b.chain|
  {
    if n == 0 then None
    else
      var earlier := FirstConflict(known, b, n - 1);
      if earlier.Some? then earlier
      else if b.firstSeq + n - 1 < |known| && known[b.firstSeq + n - 1] != b.chain[n - 1] then Some(n - 1)
      else None
  }

  /** Continuity against what is known of the agent. */
  function CheckContinuity(known: ForeignLog, firstContact: bool, b: SyncBundle): Option<SyncError>
    requires |known.ops| == |known.chain|
  {
    if b.firstSeq > |known.ops| then Some(Gap(|known.ops|, b.firstSeq))
    else if firstContact then None
    else if b.firstSeq > 0 && b.anchor != known.chain[b.firstSeq - 1] then Some(Diverged(b.firstSeq))
    else
      var c := FirstConflict(known.chain, b, |b.chain|);
      if c.Some? then Some(Diverged(b.firstSeq + c.value + 1)) else None
  }

  /** Why a bundle is refused, if it is, and else the key to pin. */
  function Admit(h: LinkHash, check: SigCheck, own: AgentId, foreign: Foreign, pins: Pins, b: SyncBundle): Outcome<Option<Text>>
    requires |Known(foreign, b.agent).ops| == |Known(foreign, b.agent).chain|
  {
    if b.agent == [] then Refused(Tampered(NamelessBundle))
    else if b.agent == own then Refused(SelfImport)
    else
      var auth := Authenticate(check, pins, b);
      if auth.Refused? then Refused(auth.error)
      else if |b.ops| != |b.chain| then Refused(Tampered(Unpaired(|b.ops|, |b.chain|)))
      else if b.firstSeq == 0 && b.anchor != GENESIS then Refused(Tampered(GenesisNotAnchored))
      else
        var bad := FirstBadLink(h, b, |b.ops|);
        if bad.Some? then Refused(Tampered(LinkMismatch(b.firstSeq + bad.value + 1)))
        else
          var discontinuity := CheckContinuity(Known(foreign, b.agent), b.agent !in foreign, b);
          if discontinuity.Some? then Refused(discontinuity.value) else auth
  }

  /** The known log with the genuinely new suffix of the bundle appended. */
  function Extended(known: ForeignLog, b: SyncBundle): ForeignLog
    requires b.firstSeq <= |known.ops| && |b.ops| == |b.chain|
  {
    var gap := |known.ops| - b.firstSeq;
    var overlap := if gap <= |b.ops| then gap else |b.ops|;
    ForeignLog(known.ops + b.ops[overlap..], known.chain + b.chain[overlap..])
  }

  datatype Imported = Imported(outcome: Outcome<nat>, foreign: Foreign, pins: Pins)

  /** The whole import: what it answers, and the foreign logs and pinned keys it leaves. */
  function Import(h: LinkHash, check: SigCheck, own: AgentId, foreign: Foreign, pins: Pins, b: SyncBundle): Imported
    requires |Known(foreign, b.agent).ops| == |Known(foreign, b.agent).chain|
  {
    var admitted := Admit(h, check, own, foreign, pins, b);
    if admitted.Refused? then Imported(Refused(admitted.error), foreign, pins)
    else
      var known := Known(foreign, b.agent);
      var log := Extended(known, b);
      Imported(Accepted(|log.ops| - |known.ops|),
               foreign[b.agent := log],
               if admitted.value.Some? then pins[b.agent := admitted.value.value] else pins)
  }

  // ---------------------------------------------------------------- what the checks mean

  lemma {:induction false} NoBadLink(h: LinkHash, b: SyncBundle, n: nat)
    requires n <= |b.ops| && n <= |b.chain|
    ensures FirstBadLink(h, b, n) == None <==>
              forall i :: 0 <= i < n ==> LinkHolds(h, b.anchor, b.firstSeq, b.ops, b.chain, i)
    ensures FirstBadLink(h, b, n).Some? ==>
              var i := FirstBadLink(h, b, n).value;
              i < n && !LinkHolds(h, b.anchor, b.firstSeq, b.ops, b.chain, i)
              && forall j :: 0 <= j < i ==> LinkHolds(h, b.anchor, b.firstSeq, b.ops, b.chain, j)
  {
    if n > 0 { NoBadLink(h, b, n - 1); }
  }

  lemma {:induction false} NoConflict(known: seq<Hash>, b: SyncBundle, n: nat)
    requires n <= |b.chain|
    ensures FirstConflict(known, b, n) == None <==>
              forall i :: 0 <= i < n && b.firstSeq + i < |known| ==> known[b.firstSeq + i] == b.chain[i]
    ensures FirstConflict(known, b, n).Some? ==> FirstConflict(known, b, n).value < n
  {
    if n > 0 { NoConflict(known, b, n - 1); }
  }

  /** Every imported log is a chain from genesis. */
  ghost predicate ValidForeign(h: LinkHash, foreign: Foreign) {
    forall a :: a in foreign ==> Linked(h, GENESIS, 0, foreign[a].ops, foreign[a].chain)
  }

  lemma KnownIsLinked(h: LinkHash, foreign: Foreign, agent: AgentId)
    requires ValidForeign(h, foreign)
    ensures var k := Known(foreign, agent); Linked(h, GENESIS, 0, k.ops, k.chain)
  {
  }

  /** `b` is the stretch of the log `ops` that starts at its first step. */
  ghost predicate Segment(h: LinkHash, b: SyncBundle, ops: seq<Op>) {
    var chain := ChainOver(h, GENESIS, 0, ops);
    var end := b.firstSeq + |b.ops|;
    && end <= |ops|
    && |b.chain| == |b.ops|
    && b.anchor == Prev(GENESIS, chain, b.firstSeq)
    && b.ops == ops[b.firstSeq..end]
    && b.chain == chain[b.firstSeq..end]
  }

  lemma ChainPrefix(h: LinkHash, ops: seq<Op>, n: nat)
    requires n <= |ops|
    ensures ChainOver(h, GENESIS, 0, ops[..n]) == ChainOver(h, GENESIS, 0, ops)[..n]
  {
    var chain := ChainOver(h, GENESIS, 0, ops);
    ChainIsUnique(h, GENESIS, 0, ops, chain);
    LinkedPrefix(h, GENESIS, 0, ops, chain, n);
    ChainIsUnique(h, GENESIS, 0, ops[..n], chain[..n]);
  }

  /** A stretch of a log is a stretch of every longer version of it. */
  lemma SegmentOfLonger(h: LinkHash, b: SyncBundle, ops: seq<Op>, longer: seq<Op>)
    requires Segment(h, b, ops) && ops <= longer
    ensures Segment(h, b, longer)
  {
    hide ChainOver;
    ChainPrefix(h, longer, |ops|);
    assert longer[..|ops|] == ops;
  }

  /** A linked bundle whose anchor is the known link before it extends the known prefix to a log. */
  lemma ContinuesIsSegment(h: LinkHash, known: ForeignLog, b: SyncBundle)
    requires Linked(h, GENESIS, 0, known.ops, known.chain) && b.firstSeq <= |known.ops|
    requires Linked(h, b.anchor, b.firstSeq, b.ops, b.chain)
    requires b.anchor == Prev(GENESIS, known.chain, b.firstSeq)
    ensures Segment(h, b, known.ops[..b.firstSeq] + b.ops)
    ensures ChainOver(h, GENESIS, 0, known.ops[..b.firstSeq] + b.ops) == known.chain[..b.firstSeq] + b.chain
  {
    hide ChainOver;
    LinkedPrefix(h, GENESIS, 0, known.ops, known.chain, b.firstSeq);
    var os, cs := known.ops[..b.firstSeq] + b.ops, known.chain[..b.firstSeq] + b.chain;
    LinkedAppend(h, GENESIS, 0, known.ops[..b.firstSeq], known.chain[..b.firstSeq], b.ops, b.chain);
    ChainIsUnique(h, GENESIS, 0, os, cs);
  }

  // ---------------------------------------------------------------- import safety

  lemma AdmittedMeans(h: LinkHash, check: SigCheck, own: AgentId, foreign: Foreign, pins: Pins, b: SyncBundle)
    requires ValidForeign(h, foreign)
    requires Admit(h, check, own, foreign, pins, b).Accepted?
    ensures var k := Known(foreign, b.agent);
            b.agent != [] && b.agent != own && Linked(h, b.anchor, b.firstSeq, b.ops, b.chain) && Continues(k, b)
  {
    hide FirstBadLink, FirstConflict, LinkHolds;
    KnownIsLinked(h, foreign, b.agent);
    NoBadLink(h, b, |b.ops|);
    NoConflict(Known(foreign, b.agent).chain, b, |b.chain|);
  }

  function KnownTimeline(known: ForeignLog): Timeline {
    Timeline(GENESIS, 0, known.ops, known.chain)
  }

  function BundleTimeline(b: SyncBundle): Timeline {
    Timeline(b.anchor, b.firstSeq, b.ops, b.chain)
  }

  /** No link of the bundle collides with one already known of its agent. */
  ghost predicate NoCollisionWith(h: LinkHash, known: ForeignLog, b: SyncBundle) {
    NoCollision(h, KnownTimeline(known), BundleTimeline(b))
  }

  /** Two links at the same step: the overlap of a bundle and a known log holds the same ops. */
  lemma OverlapAgrees(h: LinkHash, known: ForeignLog, b: SyncBundle, i: nat)
    requires NoCollisionWith(h, known, b) && Linked(h, GENESIS, 0, known.ops, known.chain)
    requires Linked(h, b.anchor, b.firstSeq, b.ops, b.chain)
    requires i < |b.ops| && b.firstSeq + i < |known.ops| && known.chain[b.firstSeq + i] == b.chain[i]
    ensures known.ops[b.firstSeq + i] == b.ops[i]
  {
    SharedLink(h, KnownTimeline(known), b.firstSeq + i, BundleTimeline(b), i);
  }

  /** What the continuity checks establish. */
  ghost predicate Continues(known: ForeignLog, b: SyncBundle) {
    && |known.ops| == |known.chain| && |b.ops| == |b.chain|
    && b.firstSeq <= |known.ops|
    && b.anchor == Prev(GENESIS, known.chain, b.firstSeq)
    && forall i :: 0 <= i < |b.chain| && b.firstSeq + i < |known.chain| ==> known.chain[b.firstSeq + i] == b.chain[i]
  }

  /** The extended log is a chain from genesis and extends the known one; only the links matter, so no hash is too weak for it. */
  lemma ExtendedIsLinked(h: LinkHash, known: ForeignLog, b: SyncBundle)
    requires Linked(h, GENESIS, 0, known.ops, known.chain)
    requires Linked(h, b.anchor, b.firstSeq, b.ops, b.chain) && Continues(known, b)
    ensures var log := Extended(known, b);
            && Linked(h, GENESIS, 0, log.ops, log.chain)
            && known.ops <= log.ops && known.chain <= log.chain
            && |log.ops| == if b.firstSeq + |b.ops| > |known.ops| then b.firstSeq + |b.ops| else |known.ops|
  {
    hide LinkHolds;
    var gap := |known.ops| - b.firstSeq;
    if gap < |b.ops| {
      LinkedSuffix(h, b.anchor, b.firstSeq, b.ops, b.chain, gap);
      assert Prev(b.anchor, b.chain, gap) == Head(GENESIS, known.chain);
      LinkedAppend(h, GENESIS, 0, known.ops, known.chain, b.ops[gap..], b.chain[gap..]);
    } else {
      assert Extended(known, b).ops == known.ops && Extended(known, b).chain == known.chain;
    }
  }

  /** Without a collision the extended log also holds every op of the bundle, overlap included. */
  lemma ExtendedIsLog(h: LinkHash, known: ForeignLog, b: SyncBundle)
    requires NoCollisionWith(h, known, b) && Linked(h, GENESIS, 0, known.ops, known.chain)
    requires Linked(h, b.anchor, b.firstSeq, b.ops, b.chain) && Continues(known, b)
    ensures Segment(h, b, Extended(known, b).ops)
  {
    hide ChainOver, LinkHolds, NoCollisionWith;
    var log := Extended(known, b);
    var pre := known.ops[..b.firstSeq] + b.ops;
    ContinuesIsSegment(h, known, b);
    ChainIsUnique(h, GENESIS, 0, pre, known.chain[..b.firstSeq] + b.chain);
    if b.firstSeq + |b.ops| >= |known.ops| {
      forall i | 0 <= i < |known.ops|
        ensures known.ops[i] == pre[i]
      {
        if i >= b.firstSeq { OverlapAgrees(h, known, b, i - b.firstSeq); }
      }
      assert log.ops == pre;
      assert log.chain == known.chain[..b.firstSeq] + b.chain;
    } else {
      forall i | 0 <= i < |b.ops|
        ensures known.ops[b.firstSeq + i] == b.ops[i]
      {
        OverlapAgrees(h, known, b, i);
      }
      assert log.ops == known.ops && log.chain == known.chain;
      assert pre == known.ops[..|pre|];
      SegmentOfLonger(h, b, pre, known.ops);
    }
  }

  /**
   * Import safety, for arbitrary bundles and whatever the hash: foreign logs stay chains from
   * genesis and only ever grow; other agents' logs are untouched; a pinned key never changes; a
   * refused bundle changes nothing. An accepted bundle is a stretch of the log it leaves unless
   * two of the links compared collide.
   */
  lemma ImportIsSafe(h: LinkHash, check: SigCheck, own: AgentId, foreign: Foreign, pins: Pins, b: SyncBundle)
    requires ValidForeign(h, foreign)
    ensures var r := Import(h, check, own, foreign, pins, b);
            && ValidForeign(h, r.foreign)
            && (r.outcome.Refused? ==> r.foreign == foreign && r.pins == pins)
            && (r.outcome.Accepted? ==>
                  && b.agent in r.foreign
                  && r.outcome.value == |r.foreign[b.agent].ops| - |Known(foreign, b.agent).ops|
                  && (NoCollisionWith(h, Known(foreign, b.agent), b) ==> Segment(h, b, r.foreign[b.agent].ops)))
            && (forall a :: a in foreign ==> a in r.foreign && foreign[a].ops <= r.foreign[a].ops && foreign[a].chain <= r.foreign[a].chain)
            && (forall a :: a in r.foreign && a != b.agent ==> a in foreign && r.foreign[a] == foreign[a])
            && (forall a :: a in pins ==> a in r.pins && r.pins[a] == pins[a])
            && (own !in foreign ==> own !in r.foreign)
  {
    hide Admit, Segment, Linked, NoCollisionWith, Continues, Extended, ValidForeign;
    KnownIsLinked(h, foreign, b.agent);
    assert |Known(foreign, b.agent).ops| == |Known(foreign, b.agent).chain| by { LinkedLengths(h, foreign, b.agent); }
    var admitted := Admit(h, check, own, foreign, pins, b);
    if admitted.Accepted? {
      AdmittedMeans(h, check, own, foreign, pins, b);
      AdmittedLengths(h, check, own, foreign, pins, b);
      ExtendedIsLinked(h, Known(foreign, b.agent), b);
      ReplacedLog(h, foreign, b.agent, Extended(Known(foreign, b.agent), b));
      if NoCollisionWith(h, Known(foreign, b.agent), b) { ExtendedIsLog(h, Known(foreign, b.agent), b); }
    }
  }

  lemma ReplacedLog(h: LinkHash, foreign: Foreign, agent: AgentId, log: ForeignLog)
    requires ValidForeign(h, foreign) && Linked(h, GENESIS, 0, log.ops, log.chain)
    requires Known(foreign, agent).ops <= log.ops && Known(foreign, agent).chain <= log.chain
    ensures var after := foreign[agent := log];
            && ValidForeign(h, after)
            && forall a :: a in foreign ==> foreign[a].ops <= after[a].ops && foreign[a].chain <= after[a].chain
  {
    hide Linked;
  }

  lemma LinkedLengths(h: LinkHash, foreign: Foreign, agent: AgentId)
    requires ValidForeign(h, foreign)
    ensures |Known(foreign, agent).ops| == |Known(foreign, agent).chain|
  {
  }

  lemma AdmittedLengths(h: LinkHash, check: SigCheck, own: AgentId, foreign: Foreign, pins: Pins, b: SyncBundle)
    requires ValidForeign(h, foreign)
    requires Admit(h, check, own, foreign, pins, b).Accepted?
    ensures |b.ops| == |b.chain| && b.firstSeq <= |Known(foreign, b.agent).ops|
    ensures Admit(h, check, own, foreign, pins, b).value.Some? ==> b.agent !in pins
  {
  }
}
