/** The audit of candidate promotion: what every sequence of calls keeps. */
module CandidateAudit {
  import opened Results
  import opened Keys
  import opened Layers

  type Text = Bytes

  // ---------------------------------------------------------------- receipts

  datatype Candidate = Candidate(fingerprint: Text, candidateId: Text)
  datatype Evaluation = Evaluation(fingerprint: Text, candidateFingerprint: Text)
  datatype Witness = Witness(fingerprint: Text, candidateFingerprint: Text)
  datatype Row = Row(champion: Text, challenger: Text)
  datatype Evidence = Evidence(fingerprint: Text, challengerCandidateId: Text, selection: seq<Row>, holdout: seq<Row>)
  datatype Decision = Promote | Quarantine | Reject
  datatype Adoption = Adoption(fingerprint: Text, evaluationFingerprint: Text, decision: Decision, reason: Text)
  datatype Verdict = Verdict(evidence: Evidence, adoption: Adoption)

  /** The receipt validators, less the bindings between receipts that are checked below. */
  datatype Rules = Rules(
    candidateOk: Candidate -> bool,
    evaluationOk: (Candidate, Evaluation) -> bool,
    witnessOk: (Candidate, Witness) -> bool,
    adoptionOk: (Evaluation, Adoption) -> bool
  )

  predicate ValidEvaluation(r: Rules, c: Candidate, e: Evaluation) {
    r.candidateOk(c) && e.candidateFingerprint == c.fingerprint && r.evaluationOk(c, e)
  }

  predicate ValidWitness(r: Rules, c: Candidate, w: Witness) {
    r.candidateOk(c) && w.candidateFingerprint == c.fingerprint && r.witnessOk(c, w)
  }

  /** How the reason of a promotion introduces the fingerprint of its evidence: "evidence_sha256=". */
  const EVIDENCE_TAG: Text :=
    [0x65, 0x76, 0x69, 0x64, 0x65, 0x6E, 0x63, 0x65, 0x5F, 0x73, 0x68, 0x61, 0x32, 0x35, 0x36, 0x3D]

  predicate ValidAdoption(r: Rules, e: Evaluation, a: Adoption) {
    && a.evaluationFingerprint == e.fingerprint && r.adoptionOk(e, a)
    && (a.decision == Promote ==> Contains(a.reason, EVIDENCE_TAG))
  }

  datatype AuditError =
    | InvalidReceipt
    | CandidateNotRecorded
    | EvaluationNotRecorded
    | EvidenceNotRecorded
    | PolicyRefused
    | Vetoed(counterexample: Text)
    | AnchorAbsent

  datatype Outcome<+T> = Done(value: T) | Failed(error: AuditError)

  // ---------------------------------------------------------------- the journal

  datatype Entry =
    | CandidateEntry(fingerprint: Text)
    | EvaluationEntry(fingerprint: Text, candidate: Text)
    | CounterexampleEntry(candidateId: Text, fingerprint: Text, candidate: Text)
    | EvidenceEntry(fingerprint: Text, evaluations: seq<Text>)
    | VetoEntry(candidateId: Text, counterexample: Text, evidence: Text)
    | AdoptionEntry(fingerprint: Text, evaluation: Text, promotes: bool, reason: Text)

  /** What makes an entry the same record: its kind and fingerprint. */
  datatype RecordId =
    | CandidateId(fp: Text)
    | EvaluationId(fp: Text)
    | CounterexampleId(id: Text, fp: Text)
    | EvidenceId(fp: Text)
    | VetoId(key: Text)
    | AdoptionId(fp: Text)

  /** The journal's veto key: the three parts joined by colons. */
  function VetoKey(candidateId: Text, counterexample: Text, evidence: Text): Text {
    candidateId + [58] + counterexample + [58] + evidence
  }

  function IdOf(e: Entry): RecordId {
    match e
    case CandidateEntry(fp) => CandidateId(fp)
    case EvaluationEntry(fp, _) => EvaluationId(fp)
    case CounterexampleEntry(id, fp, _) => CounterexampleId(id, fp)
    case EvidenceEntry(fp, _) => EvidenceId(fp)
    case VetoEntry(id, c, ev) => VetoId(VetoKey(id, c, ev))
    case AdoptionEntry(fp, _, _, _) => AdoptionId(fp)
  }

  datatype Audit = Audit(
    log: seq<Entry>,
    candidates: set<Text>,
    evaluations: set<Text>,
    evidence: set<Text>,
    counterexamples: map<Text, set<Text>>,
    vetoes: set<Text>,
    adoptions: set<Text>
  )

  function HasCounterexample(a: Audit, candidateId: Text): bool {
    candidateId in a.counterexamples && a.counterexamples[candidateId] != {}
  }

  /** `reason` contains `part`. */
  predicate Contains(reason: Text, part: Text) {
    part <= reason || (reason != [] && Contains(reason[1..], part))
  }

  function EvaluationsOf(ev: Evidence): seq<Text> {
    var rows := ev.selection + ev.holdout;
    seq(|rows|, i requires 0 <= i < |rows| => rows[i].champion) + seq(|rows|, i requires 0 <= i < |rows| => rows[i].challenger)
  }

  // ---------------------------------------------------------------- the calls, as functions

  type Ack = Outcome<()>

  function RecordCandidate(r: Rules, a: Audit, c: Candidate): (Ack, Audit) {
    if !r.candidateOk(c) then (Failed(InvalidReceipt), a)
    else if c.fingerprint in a.candidates then (Done(()), a)
    else (Done(()), a.(candidates := a.candidates + {c.fingerprint}, log := a.log + [CandidateEntry(c.fingerprint)]))
  }

  function RecordEvaluation(r: Rules, a: Audit, c: Candidate, e: Evaluation): (Ack, Audit) {
    if !ValidEvaluation(r, c, e) then (Failed(InvalidReceipt), a)
    else if c.fingerprint !in a.candidates then (Failed(CandidateNotRecorded), a)
    else if e.fingerprint in a.evaluations then (Done(()), a)
    else (Done(()), a.(evaluations := a.evaluations + {e.fingerprint},
                               log := a.log + [EvaluationEntry(e.fingerprint, e.candidateFingerprint)]))
  }

  function RecordCounterexample(r: Rules, a: Audit, c: Candidate, w: Witness): (Ack, Audit) {
    if !ValidWitness(r, c, w) then (Failed(InvalidReceipt), a)
    else if c.fingerprint !in a.candidates then (Failed(CandidateNotRecorded), a)
    else
      var known := if c.candidateId in a.counterexamples then a.counterexamples[c.candidateId] else {};
      var indexed := a.(counterexamples := a.counterexamples[c.candidateId := known + {w.fingerprint}]);
      if w.fingerprint in known then (Done(()), indexed)
      else (Done(()), indexed.(log := a.log + [CounterexampleEntry(c.candidateId, w.fingerprint, c.fingerprint)]))
  }

  function RecordEvidence(a: Audit, ev: Evidence): (Ack, Audit) {
    if exists fp :: fp in EvaluationsOf(ev) && fp !in a.evaluations then (Failed(EvaluationNotRecorded), a)
    else if ev.fingerprint in a.evidence then (Done(()), a)
    else (Done(()), a.(evidence := a.evidence + {ev.fingerprint},
                               log := a.log + [EvidenceEntry(ev.fingerprint, EvaluationsOf(ev))]))
  }

  function RecordAdoption(r: Rules, a: Audit, e: Evaluation, ad: Adoption): (Ack, Audit) {
    if !ValidAdoption(r, e, ad) then (Failed(InvalidReceipt), a)
    else if e.fingerprint !in a.evaluations then (Failed(EvaluationNotRecorded), a)
    else if ad.decision == Promote && !(exists fp :: fp in a.evidence && Contains(ad.reason, fp)) then
      (Failed(EvidenceNotRecorded), a)
    else if ad.fingerprint in a.adoptions then (Done(()), a)
    else (Done(()), a.(adoptions := a.adoptions + {ad.fingerprint},
                               log := a.log + [AdoptionEntry(ad.fingerprint, e.fingerprint, ad.decision == Promote, ad.reason)]))
  }

  /** Record, run the sealed evaluator, record its receipt; a failing evaluator leaves the candidate recorded. */
  function Evaluate(r: Rules, a: Audit, c: Candidate, receipt: Option<Evaluation>): (Outcome<Evaluation>, Audit) {
    var (first, a1) := RecordCandidate(r, a, c);
    match first
    case Failed(e) => (Failed(e), a1)
    case Done(_) =>
      if receipt.None? then (Failed(PolicyRefused), a1)
      else
        var (second, a2) := RecordEvaluation(r, a1, c, receipt.value);
        match second
        case Failed(e) => (Failed(e), a2)
        case Done(_) => (Done(receipt.value), a2)
  }

  /** Single-seed gate: `decided` is what the policy answers for the two receipts. */
  function DecideChampion(r: Rules, a: Audit, challenger: Evaluation, decided: Option<Adoption>): (Outcome<Adoption>, Audit) {
    if challenger.fingerprint !in a.evaluations then (Failed(EvaluationNotRecorded), a)
    else if decided.None? then (Failed(PolicyRefused), a)
    else
      var (recorded, a1) := RecordAdoption(r, a, challenger, decided.value);
      match recorded
      case Failed(e) => (Failed(e), a1)
      case Done(_) => (Done(decided.value), a1)
  }

  /** The first challenger receipt the adoption is anchored at. */
  function FindAnchor(challengers: seq<Evaluation>, fp: Text): Option<Evaluation> {
    if challengers == [] then None
    else if challengers[0].fingerprint == fp then Some(challengers[0])
    else FindAnchor(challengers[1..], fp)
  }

  /** Journals one veto for a key. */
  function RecordVeto(a: Audit, id: Text, counterexample: Text, evidence: Text): Audit {
    var key := VetoKey(id, counterexample, evidence);
    if key in a.vetoes then a
    else a.(vetoes := a.vetoes + {key}, log := a.log + [VetoEntry(id, counterexample, evidence)])
  }

  /** Repeated-seed promotion: evidence first, then the veto, then the adoption. */
  function DecideRepeatedSeed(r: Rules, a: Audit, challengers: seq<Evaluation>, decided: Option<Verdict>): (Outcome<Verdict>, Audit) {
    if decided.None? then (Failed(PolicyRefused), a)
    else
      var v := decided.value;
      var (first, a1) := RecordEvidence(a, v.evidence);
      match first
      case Failed(e) => (Failed(e), a1)
      case Done(_) =>
        var id := v.evidence.challengerCandidateId;
        if v.adoption.decision == Promote && HasCounterexample(a1, id) then
          var counterexample := Least(a1.counterexamples[id]);
          (Failed(Vetoed(counterexample)), RecordVeto(a1, id, counterexample, v.evidence.fingerprint))
        else
          var anchor := FindAnchor(challengers, v.adoption.evaluationFingerprint);
          if anchor.None? then (Failed(AnchorAbsent), a1)
          else
            var (second, a2) := RecordAdoption(r, a1, anchor.value, v.adoption);
            match second
            case Failed(e) => (Failed(e), a2)
            case Done(_) => (Done(v), a2)
  }

  datatype Call =
    | CallCandidate(c: Candidate)
    | CallEvaluation(c: Candidate, e: Evaluation)
    | CallCounterexample(c: Candidate, w: Witness)
    | CallEvidence(ev: Evidence)
    | CallAdoption(e: Evaluation, ad: Adoption)
    | CallEvaluate(c: Candidate, receipt: Option<Evaluation>)
    | CallChampion(challenger: Evaluation, adopted: Option<Adoption>)
    | CallRepeated(challengers: seq<Evaluation>, decided: Option<Verdict>)

  function Apply(r: Rules, a: Audit, call: Call): Audit {
    match call
    case CallCandidate(c) => RecordCandidate(r, a, c).1
    case CallEvaluation(c, e) => RecordEvaluation(r, a, c, e).1
    case CallCounterexample(c, w) => RecordCounterexample(r, a, c, w).1
    case CallEvidence(ev) => RecordEvidence(a, ev).1
    case CallAdoption(e, ad) => RecordAdoption(r, a, e, ad).1
    case CallEvaluate(c, receipt) => Evaluate(r, a, c, receipt).1
    case CallChampion(e, adopted) => DecideChampion(r, a, e, adopted).1
    case CallRepeated(cs, decided) => DecideRepeatedSeed(r, a, cs, decided).1
  }

  const FRESH: Audit := Audit([], {}, {}, {}, map[], {}, {})

  function After(r: Rules, calls: seq<Call>): Audit {
    if calls == [] then FRESH else Apply(r, After(r, calls[..|calls| - 1]), calls[|calls| - 1])
  }

  // ---------------------------------------------------------------- the invariant

  /** Everything the six sets say is recorded. */
  ghost predicate Recorded(a: Audit, id: RecordId) {
    match id
    case CandidateId(fp) => fp in a.candidates
    case EvaluationId(fp) => fp in a.evaluations
    case CounterexampleId(id, fp) => id in a.counterexamples && fp in a.counterexamples[id]
    case EvidenceId(fp) => fp in a.evidence
    case VetoId(key) => key in a.vetoes
    case AdoptionId(fp) => fp in a.adoptions
  }

  ghost predicate Journaled(log: seq<Entry>, id: RecordId) {
    exists i :: 0 <= i < |log| && IdOf(log[i]) == id
  }

  /** The entry of candidate, evaluation or evidence `id` is among the first `n`. */
  ghost predicate Before(log: seq<Entry>, n: nat, id: RecordId)
    requires n <= |log|
  {
    exists i :: 0 <= i < n && IdOf(log[i]) == id
  }

  /** An entry comes after everything it depends on. */
  ghost predicate InOrder(log: seq<Entry>, n: nat)
    requires n < |log|
  {
    match log[n]
    case CandidateEntry(_) => true
    case EvaluationEntry(_, candidate) => Before(log, n, CandidateId(candidate))
    case CounterexampleEntry(_, _, candidate) => Before(log, n, CandidateId(candidate))
    case EvidenceEntry(_, evaluations) => forall fp :: fp in evaluations ==> Before(log, n, EvaluationId(fp))
    case VetoEntry(id, counterexample, evidence) =>
      Before(log, n, CounterexampleId(id, counterexample)) && Before(log, n, EvidenceId(evidence))
    case AdoptionEntry(_, evaluation, promotes, reason) =>
      && Before(log, n, EvaluationId(evaluation))
      && (promotes ==> exists fp :: Before(log, n, EvidenceId(fp)) && Contains(reason, fp))
  }

  ghost predicate Inv(a: Audit) {
    && (forall i, j :: 0 <= i < j < |a.log| ==> IdOf(a.log[i]) != IdOf(a.log[j]))
    && (forall id :: Recorded(a, id) <==> Journaled(a.log, id))
    && (forall n :: 0 <= n < |a.log| ==> InOrder(a.log, n))
  }

  lemma BeforeStays(log: seq<Entry>, e: Entry, n: nat, id: RecordId)
    requires n <= |log|
    ensures Before(log, n, id) <==> Before(log + [e], n, id)
  {
    if Before(log, n, id) {
      var i :| 0 <= i < n && IdOf(log[i]) == id;
      assert (log + [e])[i] == log[i];
    }
    if Before(log + [e], n, id) {
      var i :| 0 <= i < n && IdOf((log + [e])[i]) == id;
      assert (log + [e])[i] == log[i];
    }
  }

  lemma InOrderStays(log: seq<Entry>, e: Entry, n: nat)
    requires n < |log| && InOrder(log, n)
    ensures InOrder(log + [e], n)
  {
    hide Before, Contains;
    forall id
      ensures Before(log, n, id) <==> Before(log + [e], n, id)
    {
      BeforeStays(log, e, n, id);
    }
    assert (log + [e])[n] == log[n];
  }

  /** One more record with its entry, in order, keeps the invariant. */
  lemma AppendKeepsInv(a: Audit, b: Audit, e: Entry)
    requires Inv(a) && b.log == a.log + [e] && !Recorded(a, IdOf(e))
    requires forall id :: Recorded(b, id) <==> Recorded(a, id) || id == IdOf(e)
    requires InOrder(a.log + [e], |a.log|)
    ensures Inv(b)
  {
    hide InOrder, Recorded;
    forall id
      ensures Journaled(b.log, id) <==> Journaled(a.log, id) || id == IdOf(e)
    {
      if Journaled(a.log, id) {
        var i :| 0 <= i < |a.log| && IdOf(a.log[i]) == id;
        assert b.log[i] == a.log[i];
      }
      assert b.log[|a.log|] == e;
    }
    forall n | 0 <= n < |b.log|
      ensures InOrder(b.log, n)
    {
      if n < |a.log| { InOrderStays(a.log, e, n); }
    }
  }

  lemma RecordedBefore(a: Audit, e: Entry, id: RecordId)
    requires Inv(a) && Recorded(a, id)
    ensures Before(a.log + [e], |a.log|, id)
  {
    hide InOrder, Recorded;
    var i :| 0 <= i < |a.log| && IdOf(a.log[i]) == id;
    assert (a.log + [e])[i] == a.log[i];
  }

  // ---------------------------------------------------------------- every call keeps it

  lemma CandidateKeepsInv(r: Rules, a: Audit, c: Candidate)
    requires Inv(a)
    ensures Inv(RecordCandidate(r, a, c).1)
  {
    hide Inv;
    var b := RecordCandidate(r, a, c).1;
    if b != a {
      assert InOrder(b.log, |a.log|);
      AppendKeepsInv(a, b, CandidateEntry(c.fingerprint));
    }
  }

  lemma EvaluationKeepsInv(r: Rules, a: Audit, c: Candidate, e: Evaluation)
    requires Inv(a)
    ensures Inv(RecordEvaluation(r, a, c, e).1)
  {
    hide Inv, Before;
    var b := RecordEvaluation(r, a, c, e).1;
    if b != a {
      var entry := EvaluationEntry(e.fingerprint, e.candidateFingerprint);
      RecordedBefore(a, entry, CandidateId(c.fingerprint));
      AppendKeepsInv(a, b, entry);
    }
  }

  lemma CounterexampleKeepsInv(r: Rules, a: Audit, c: Candidate, w: Witness)
    requires Inv(a)
    ensures Inv(RecordCounterexample(r, a, c, w).1)
  {
    hide Inv, Before;
    var b := RecordCounterexample(r, a, c, w).1;
    if b.log != a.log {
      var entry := CounterexampleEntry(c.candidateId, w.fingerprint, c.fingerprint);
      RecordedBefore(a, entry, CandidateId(c.fingerprint));
      AppendKeepsInv(a, b, entry);
    } else if c.candidateId in a.counterexamples && w.fingerprint in a.counterexamples[c.candidateId] {
      AddKnown(a.counterexamples, c.candidateId, w.fingerprint);
    }
  }

  lemma AddKnown(m: map<Text, set<Text>>, id: Text, fp: Text)
    requires id in m && fp in m[id]
    ensures m[id := m[id] + {fp}] == m
  {
    assert m[id] + {fp} == m[id];
  }

  lemma EvidenceKeepsInv(a: Audit, ev: Evidence)
    requires Inv(a)
    ensures Inv(RecordEvidence(a, ev).1)
  {
    hide Inv, Before, EvaluationsOf;
    var b := RecordEvidence(a, ev).1;
    if b != a {
      var entry := EvidenceEntry(ev.fingerprint, EvaluationsOf(ev));
      forall fp | fp in EvaluationsOf(ev)
        ensures Before(a.log + [entry], |a.log|, EvaluationId(fp))
      {
        RecordedBefore(a, entry, EvaluationId(fp));
      }
      AppendKeepsInv(a, b, entry);
    }
  }

  lemma VetoKeepsInv(a: Audit, id: Text, counterexample: Text, evidence: Text)
    requires Inv(a) && Recorded(a, CounterexampleId(id, counterexample)) && Recorded(a, EvidenceId(evidence))
    ensures Inv(RecordVeto(a, id, counterexample, evidence))
  {
    hide Inv, Before, VetoKey;
    var b := RecordVeto(a, id, counterexample, evidence);
    if b != a {
      var entry := VetoEntry(id, counterexample, evidence);
      RecordedBefore(a, entry, CounterexampleId(id, counterexample));
      RecordedBefore(a, entry, EvidenceId(evidence));
      AppendKeepsInv(a, b, entry);
    }
  }

  lemma AdoptionKeepsInv(r: Rules, a: Audit, e: Evaluation, ad: Adoption)
    requires Inv(a)
    ensures Inv(RecordAdoption(r, a, e, ad).1)
  {
    hide Inv, Before, Contains;
    var b := RecordAdoption(r, a, e, ad).1;
    if b != a {
      var entry := AdoptionEntry(ad.fingerprint, e.fingerprint, ad.decision == Promote, ad.reason);
      RecordedBefore(a, entry, EvaluationId(e.fingerprint));
      if ad.decision == Promote {
        var fp :| fp in a.evidence && Contains(ad.reason, fp);
        RecordedBefore(a, entry, EvidenceId(fp));
      }
      AppendKeepsInv(a, b, entry);
    }
  }

  lemma RepeatedSeedKeepsInv(r: Rules, a: Audit, challengers: seq<Evaluation>, decided: Option<Verdict>)
    requires Inv(a)
    ensures Inv(DecideRepeatedSeed(r, a, challengers, decided).1)
  {
    hide Inv, Contains, EvaluationsOf, RecordAdoption;
    if decided.Some? {
      var v := decided.value;
      EvidenceKeepsInv(a, v.evidence);
      var (first, a1) := RecordEvidence(a, v.evidence);
      if first.Done? {
        var id := v.evidence.challengerCandidateId;
        if v.adoption.decision == Promote && HasCounterexample(a1, id) {
          VetoKeepsInv(a1, id, Least(a1.counterexamples[id]), v.evidence.fingerprint);
        } else {
          var anchor := FindAnchor(challengers, v.adoption.evaluationFingerprint);
          if anchor.Some? { AdoptionKeepsInv(r, a1, anchor.value, v.adoption); }
        }
      }
    }
  }

  lemma ApplyKeepsInv(r: Rules, a: Audit, call: Call)
    requires Inv(a)
    ensures Inv(Apply(r, a, call))
  {
    hide Inv, RecordCandidate, RecordEvaluation, RecordCounterexample, RecordEvidence, RecordAdoption, DecideRepeatedSeed;
    match call
    case CallCandidate(c) => CandidateKeepsInv(r, a, c);
    case CallEvaluation(c, e) => EvaluationKeepsInv(r, a, c, e);
    case CallCounterexample(c, w) => CounterexampleKeepsInv(r, a, c, w);
    case CallEvidence(ev) => EvidenceKeepsInv(a, ev);
    case CallAdoption(e, ad) => AdoptionKeepsInv(r, a, e, ad);
    case CallEvaluate(c, receipt) =>
      CandidateKeepsInv(r, a, c);
      if receipt.Some? { EvaluationKeepsInv(r, RecordCandidate(r, a, c).1, c, receipt.value); }
    case CallChampion(e, adopted) =>
      if adopted.Some? { AdoptionKeepsInv(r, a, e, adopted.value); }
    case CallRepeated(cs, decided) => RepeatedSeedKeepsInv(r, a, cs, decided);
  }

  /** Over every sequence of calls: no record twice, journal and sets agree, everything after what it depends on. */
  lemma {:induction false} EveryRunKeepsInv(r: Rules, calls: seq<Call>)
    ensures Inv(After(r, calls))
  {
    hide Apply, Inv;
    if calls != [] {
      EveryRunKeepsInv(r, calls[..|calls| - 1]);
      ApplyKeepsInv(r, After(r, calls[..|calls| - 1]), calls[|calls| - 1]);
    } else {
      FreshInv();
    }
  }

  lemma FreshInv()
    ensures Inv(FRESH)
  {
  }

  // ---------------------------------------------------------------- growth and size

  ghost predicate Grows(a: Audit, b: Audit) {
    && a.log <= b.log
    && a.candidates <= b.candidates && a.evaluations <= b.evaluations && a.evidence <= b.evidence
    && a.vetoes <= b.vetoes && a.adoptions <= b.adoptions
    && (forall id :: id in a.counterexamples ==> id in b.counterexamples && a.counterexamples[id] <= b.counterexamples[id])
  }

  ghost function Pairs(m: map<Text, set<Text>>): set<(Text, Text)> {
    set id, fp | id in m && fp in m[id] :: (id, fp)
  }

  /** The total size of the six recorded sets. */
  ghost function Total(a: Audit): nat {
    |a.candidates| + |a.evaluations| + |a.evidence| + |Pairs(a.counterexamples)| + |a.vetoes| + |a.adoptions|
  }

  /** A step of the journal: it grows by exactly what the sets gain. */
  ghost predicate Journals(a: Audit, b: Audit) {
    Grows(a, b) && |b.log| - |a.log| == Total(b) - Total(a)
  }

  lemma PairsAdd(m: map<Text, set<Text>>, id: Text, fp: Text)
    ensures var known := if id in m then m[id] else {};
            Pairs(m[id := known + {fp}]) == Pairs(m) + {(id, fp)}
  {
  }

  lemma AddedSize<T>(s: set<T>, x: T)
    ensures |s + {x}| == if x in s then |s| else |s| + 1
  {
    if x in s { assert s + {x} == s; }
  }

  lemma CounterexampleJournals(r: Rules, a: Audit, c: Candidate, w: Witness)
    ensures Journals(a, RecordCounterexample(r, a, c, w).1)
  {
    hide Pairs;
    PairsAdd(a.counterexamples, c.candidateId, w.fingerprint);
    AddedSize(Pairs(a.counterexamples), (c.candidateId, w.fingerprint));
    PairMember(a.counterexamples, c.candidateId, w.fingerprint);
  }

  lemma PairMember(m: map<Text, set<Text>>, id: Text, fp: Text)
    ensures (id, fp) in Pairs(m) <==> id in m && fp in m[id]
  {
  }

  lemma CandidateJournals(r: Rules, a: Audit, c: Candidate)
    ensures Journals(a, RecordCandidate(r, a, c).1)
  {
    hide Pairs;
    AddedSize(a.candidates, c.fingerprint);
  }

  lemma EvaluationJournals(r: Rules, a: Audit, c: Candidate, e: Evaluation)
    ensures Journals(a, RecordEvaluation(r, a, c, e).1)
  {
    hide Pairs, ValidEvaluation;
    AddedSize(a.evaluations, e.fingerprint);
  }

  lemma EvidenceJournals(a: Audit, ev: Evidence)
    ensures Journals(a, RecordEvidence(a, ev).1)
  {
    hide Pairs, EvaluationsOf;
    AddedSize(a.evidence, ev.fingerprint);
  }

  lemma AdoptionJournals(r: Rules, a: Audit, e: Evaluation, ad: Adoption)
    ensures Journals(a, RecordAdoption(r, a, e, ad).1)
  {
    hide Pairs, Contains, ValidAdoption;
    AddedSize(a.adoptions, ad.fingerprint);
  }

  lemma VetoJournals(a: Audit, id: Text, counterexample: Text, evidence: Text)
    ensures Journals(a, RecordVeto(a, id, counterexample, evidence))
  {
    hide Pairs, VetoKey;
    AddedSize(a.vetoes, VetoKey(id, counterexample, evidence));
  }

  lemma JournalsTransitive(a: Audit, b: Audit, c: Audit)
    requires Journals(a, b) && Journals(b, c)
    ensures Journals(a, c)
  {
    hide Total;
  }

  lemma ApplyJournals(r: Rules, a: Audit, call: Call)
    ensures Journals(a, Apply(r, a, call))
  {
    hide Journals, RecordCandidate, RecordEvaluation, RecordCounterexample, RecordEvidence, RecordAdoption, RecordVeto;
    Unchanged(a);
    match call
    case CallCandidate(c) => CandidateJournals(r, a, c);
    case CallEvaluation(c, e) => EvaluationJournals(r, a, c, e);
    case CallCounterexample(c, w) => CounterexampleJournals(r, a, c, w);
    case CallEvidence(ev) => EvidenceJournals(a, ev);
    case CallAdoption(e, ad) => AdoptionJournals(r, a, e, ad);
    case CallEvaluate(c, receipt) =>
      CandidateJournals(r, a, c);
      if receipt.Some? {
        var b := RecordCandidate(r, a, c).1;
        EvaluationJournals(r, b, c, receipt.value);
        JournalsTransitive(a, b, RecordEvaluation(r, b, c, receipt.value).1);
      }
    case CallChampion(e, adopted) =>
      if adopted.Some? { AdoptionJournals(r, a, e, adopted.value); }
    case CallRepeated(cs, decided) =>
      if decided.Some? { RepeatedJournals(r, a, cs, decided.value); }
  }

  lemma Unchanged(a: Audit)
    ensures Journals(a, a)
  {
  }

  lemma RepeatedJournals(r: Rules, a: Audit, challengers: seq<Evaluation>, v: Verdict)
    ensures Journals(a, DecideRepeatedSeed(r, a, challengers, Some(v)).1)
  {
    hide Journals, RecordEvidence, RecordAdoption, RecordVeto;
    EvidenceJournals(a, v.evidence);
    var (first, a1) := RecordEvidence(a, v.evidence);
    if first.Done? {
      var id := v.evidence.challengerCandidateId;
      if v.adoption.decision == Promote && HasCounterexample(a1, id) {
        var least := Least(a1.counterexamples[id]);
        VetoJournals(a1, id, least, v.evidence.fingerprint);
        JournalsTransitive(a, a1, RecordVeto(a1, id, least, v.evidence.fingerprint));
      } else {
        var anchor := FindAnchor(challengers, v.adoption.evaluationFingerprint);
        if anchor.Some? {
          AdoptionJournals(r, a1, anchor.value, v.adoption);
          JournalsTransitive(a, a1, RecordAdoption(r, a1, anchor.value, v.adoption).1);
        }
      }
    }
  }

  /** Over every sequence of calls the journal only grows, and is as long as the six sets together. */
  lemma {:induction false} EveryRunJournals(r: Rules, calls: seq<Call>, n: nat)
    requires n <= |calls|
    ensures Grows(After(r, calls[..n]), After(r, calls))
    ensures |After(r, calls).log| == Total(After(r, calls))
    decreases |calls|
  {
    hide Apply, Grows, Total;
    if calls != [] {
      var m := |calls| - 1;
      ApplyJournals(r, After(r, calls[..m]), calls[m]);
      if n <= m {
        EveryRunJournals(r, calls[..m], n);
        assert calls[..m][..n] == calls[..n];
        GrowsTransitive(After(r, calls[..n]), After(r, calls[..m]), After(r, calls));
      } else {
        EveryRunJournals(r, calls[..m], m);
        assert calls[..n] == calls;
        GrowsReflexive(After(r, calls));
      }
    } else {
      assert calls[..n] == calls;
      GrowsReflexive(FRESH);
      FreshTotal();
    }
  }

  lemma GrowsTransitive(a: Audit, b: Audit, c: Audit)
    requires Grows(a, b) && Grows(b, c)
    ensures Grows(a, c)
  {
  }

  lemma GrowsReflexive(a: Audit)
    ensures Grows(a, a)
  {
  }

  lemma FreshTotal()
    ensures Total(FRESH) == 0
  {
    assert Pairs(map[]) == {};
  }

  // ---------------------------------------------------------------- repeats

  lemma RepeatedCounterexample(r: Rules, a: Audit, c: Candidate, w: Witness)
    ensures var b := RecordCounterexample(r, a, c, w).1;
            RecordCounterexample(r, b, c, w).1 == b
  {
    hide ValidWitness;
    var b := RecordCounterexample(r, a, c, w).1;
    if b != a { AddKnown(b.counterexamples, c.candidateId, w.fingerprint); }
  }

  lemma RepeatedDecision(r: Rules, a: Audit, challengers: seq<Evaluation>, decided: Option<Verdict>)
    ensures var b := DecideRepeatedSeed(r, a, challengers, decided).1;
            DecideRepeatedSeed(r, b, challengers, decided).1 == b
  {
    hide Contains, EvaluationsOf, ValidAdoption, FindAnchor, VetoKey;
  }

  /** The same call again adds nothing. */
  lemma RepeatAddsNothing(r: Rules, a: Audit, call: Call)
    ensures Apply(r, Apply(r, a, call), call) == Apply(r, a, call)
  {
    hide Contains, EvaluationsOf, ValidAdoption, ValidEvaluation, DecideRepeatedSeed, RecordCounterexample;
    match call
    case CallCounterexample(c, w) => RepeatedCounterexample(r, a, c, w);
    case CallRepeated(cs, decided) => RepeatedDecision(r, a, cs, decided);
    case _ =>
  }

  /** The record calls, as opposed to the decisions that can meet a new veto. */
  predicate IsRecord(call: Call) {
    !call.CallRepeated? && !call.CallChampion? && !call.CallEvaluate?
  }

  function RecordOutcome(r: Rules, a: Audit, call: Call): Ack
    requires IsRecord(call)
  {
    match call
    case CallCandidate(c) => RecordCandidate(r, a, c).0
    case CallEvaluation(c, e) => RecordEvaluation(r, a, c, e).0
    case CallCounterexample(c, w) => RecordCounterexample(r, a, c, w).0
    case CallEvidence(ev) => RecordEvidence(a, ev).0
    case CallAdoption(e, ad) => RecordAdoption(r, a, e, ad).0
  }

  /** Once recorded, recording again at any later time succeeds and adds nothing. */
  lemma LaterRepeatAddsNothing(r: Rules, a: Audit, later: Audit, call: Call)
    requires IsRecord(call) && RecordOutcome(r, a, call).Done? && Grows(Apply(r, a, call), later)
    ensures RecordOutcome(r, later, call).Done? && Apply(r, later, call) == later
  {
    hide Contains, EvaluationsOf, ValidAdoption, ValidEvaluation;
    match call
    case CallCounterexample(c, w) =>
      assert w.fingerprint in later.counterexamples[c.candidateId];
      assert later.counterexamples[c.candidateId] + {w.fingerprint} == later.counterexamples[c.candidateId];
      assert later.counterexamples[c.candidateId := later.counterexamples[c.candidateId]] == later.counterexamples;
    case _ =>
  }

  // ---------------------------------------------------------------- the veto

  /** With a counterexample on file the repeated-seed gate never promotes the candidate. */
  lemma VetoBlocksPromotion(r: Rules, a: Audit, challengers: seq<Evaluation>, decided: Option<Verdict>)
    ensures var (o, b) := DecideRepeatedSeed(r, a, challengers, decided);
            o.Done? && o.value.adoption.decision == Promote ==>
              !HasCounterexample(a, o.value.evidence.challengerCandidateId)
  {
    hide RecordAdoption, EvaluationsOf;
  }

  /** Over every run: after a counterexample, no later repeated-seed decision promotes that candidate. */
  lemma VetoHoldsForever(r: Rules, calls: seq<Call>, n: nat, challengers: seq<Evaluation>, decided: Option<Verdict>, id: Text)
    requires n <= |calls| && HasCounterexample(After(r, calls[..n]), id)
    ensures var o := DecideRepeatedSeed(r, After(r, calls), challengers, decided).0;
            o.Done? && o.value.evidence.challengerCandidateId == id ==> o.value.adoption.decision != Promote
  {
    hide After, DecideRepeatedSeed;
    EveryRunJournals(r, calls, n);
    assert HasCounterexample(After(r, calls), id) by { CounterexamplesStay(After(r, calls[..n]), After(r, calls), id); }
    VetoBlocksPromotion(r, After(r, calls), challengers, decided);
  }

  lemma CounterexamplesStay(a: Audit, b: Audit, id: Text)
    requires Grows(a, b) && HasCounterexample(a, id)
    ensures HasCounterexample(b, id)
  {
  }

  /** The plain adoption record does not consult the veto: its answer is the same with any counterexamples. */
  lemma AdoptionIgnoresCounterexamples(r: Rules, a: Audit, e: Evaluation, ad: Adoption, others: map<Text, set<Text>>)
    ensures RecordAdoption(r, a.(counterexamples := others), e, ad).0 == RecordAdoption(r, a, e, ad).0
    ensures RecordAdoption(r, a.(counterexamples := others), e, ad).1 == RecordAdoption(r, a, e, ad).1.(counterexamples := others)
  {
    hide Contains;
  }

  /** A counterexample is on file for an id exactly when the log holds an entry for one. */
  lemma CounterexampleIsJournaled(a: Audit, candidateId: Text)
    requires Inv(a)
    ensures HasCounterexample(a, candidateId) <==> exists fp :: Journaled(a.log, CounterexampleId(candidateId, fp))
  {
    hide Journaled, InOrder;
    if HasCounterexample(a, candidateId) {
      var fp :| fp in a.counterexamples[candidateId];
      assert Recorded(a, CounterexampleId(candidateId, fp));
    }
    if exists fp :: Journaled(a.log, CounterexampleId(candidateId, fp)) {
      var fp :| Journaled(a.log, CounterexampleId(candidateId, fp));
      assert Recorded(a, CounterexampleId(candidateId, fp));
    }
  }
}
