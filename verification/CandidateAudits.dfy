/** The audit object itself: every call updates its sets and its log in place, as the transition functions say. */
module CandidateAudits {
  import opened Results
  import opened Keys
  import opened Layers
  import Spec = CandidateAudit

  type Text = Bytes

  class CcosCandidateAudit {
    var log: seq<Spec.Entry>
    var candidates: set<Text>
    var evaluations: set<Text>
    var promotionEvidence: set<Text>
    var counterexamplesByCandidate: map<Text, set<Text>>
    var counterexampleVetoes: set<Text>
    var adoptions: set<Text>

    ghost function State(): Spec.Audit
      reads this
    {
      Spec.Audit(log, candidates, evaluations, promotionEvidence, counterexamplesByCandidate, counterexampleVetoes, adoptions)
    }

    constructor ()
      ensures State() == Spec.FRESH
    {
      log, candidates, evaluations, promotionEvidence, adoptions := [], {}, {}, {}, {};
      counterexamplesByCandidate, counterexampleVetoes := map[], {};
    }

    method RecordCandidate(r: Spec.Rules, c: Spec.Candidate) returns (o: Spec.Ack)
      modifies this
      ensures (o, State()) == Spec.RecordCandidate(r, old(State()), c)
    {
      if !r.candidateOk(c) { return Spec.Failed(Spec.InvalidReceipt); }
      if c.fingerprint in candidates { return Spec.Done(()); }
      candidates := candidates + {c.fingerprint};
      log := log + [Spec.CandidateEntry(c.fingerprint)];
      return Spec.Done(());
    }

    method RecordEvaluation(r: Spec.Rules, c: Spec.Candidate, e: Spec.Evaluation) returns (o: Spec.Ack)
      modifies this
      ensures (o, State()) == Spec.RecordEvaluation(r, old(State()), c, e)
    {
      if !Spec.ValidEvaluation(r, c, e) { return Spec.Failed(Spec.InvalidReceipt); }
      if c.fingerprint !in candidates { return Spec.Failed(Spec.CandidateNotRecorded); }
      if e.fingerprint in evaluations { return Spec.Done(()); }
      evaluations := evaluations + {e.fingerprint};
      log := log + [Spec.EvaluationEntry(e.fingerprint, e.candidateFingerprint)];
      return Spec.Done(());
    }

    method RecordCounterexample(r: Spec.Rules, c: Spec.Candidate, w: Spec.Witness) returns (o: Spec.Ack)
      modifies this
      ensures (o, State()) == Spec.RecordCounterexample(r, old(State()), c, w)
    {
      if !Spec.ValidWitness(r, c, w) { return Spec.Failed(Spec.InvalidReceipt); }
      if c.fingerprint !in candidates { return Spec.Failed(Spec.CandidateNotRecorded); }
      var known: set<Text> := {};
      if c.candidateId in counterexamplesByCandidate { known := counterexamplesByCandidate[c.candidateId]; }
      counterexamplesByCandidate := counterexamplesByCandidate[c.candidateId := known + {w.fingerprint}];
      if w.fingerprint in known { return Spec.Done(()); }
      log := log + [Spec.CounterexampleEntry(c.candidateId, w.fingerprint, c.fingerprint)];
      return Spec.Done(());
    }

    method HasCounterexample(candidateId: Text) returns (has: bool)
      ensures has == Spec.HasCounterexample(State(), candidateId)
      ensures Spec.Inv(State()) ==> (has <==> exists fp :: Spec.Journaled(log, Spec.CounterexampleId(candidateId, fp)))
    {
      hide Spec.Journaled;
      if Spec.Inv(State()) { Spec.CounterexampleIsJournaled(State(), candidateId); }
      hide Spec.Inv;
      return candidateId in counterexamplesByCandidate && counterexamplesByCandidate[candidateId] != {};
    }

    /** Refused at the first row that names an evaluation not on record. */
    method RecordPromotionEvidence(ev: Spec.Evidence) returns (o: Spec.Ack)
      modifies this
      ensures (o, State()) == Spec.RecordEvidence(old(State()), ev)
    {
      var rows := ev.selection + ev.holdout;
      ghost var named := Spec.EvaluationsOf(ev);
      var i := 0;
      while i < |rows|
        invariant 0 <= i <= |rows| && State() == old(State())
        invariant forall k :: 0 <= k < i ==> rows[k].champion in evaluations && rows[k].challenger in evaluations
      {
        if rows[i].champion !in evaluations || rows[i].challenger !in evaluations {
          assert named[i] == rows[i].champion && named[|rows| + i] == rows[i].challenger;
          return Spec.Failed(Spec.EvaluationNotRecorded);
        }
        i := i + 1;
      }
      forall k | 0 <= k < |named|
        ensures named[k] in evaluations
      {
        assert named[k] == if k < |rows| then rows[k].champion else rows[k - |rows|].challenger;
      }
      if ev.fingerprint in promotionEvidence { return Spec.Done(()); }
      promotionEvidence := promotionEvidence + {ev.fingerprint};
      log := log + [Spec.EvidenceEntry(ev.fingerprint, Spec.EvaluationsOf(ev))];
      return Spec.Done(());
    }

    method RecordAdoption(r: Spec.Rules, e: Spec.Evaluation, ad: Spec.Adoption) returns (o: Spec.Ack)
      modifies this
      ensures (o, State()) == Spec.RecordAdoption(r, old(State()), e, ad)
    {
      hide Spec.Contains;
      if !Spec.ValidAdoption(r, e, ad) { return Spec.Failed(Spec.InvalidReceipt); }
      if e.fingerprint !in evaluations { return Spec.Failed(Spec.EvaluationNotRecorded); }
      if ad.decision == Spec.Promote && !(exists fp :: fp in promotionEvidence && Spec.Contains(ad.reason, fp)) {
        return Spec.Failed(Spec.EvidenceNotRecorded);
      }
      if ad.fingerprint in adoptions { return Spec.Done(()); }
      adoptions := adoptions + {ad.fingerprint};
      log := log + [Spec.AdoptionEntry(ad.fingerprint, e.fingerprint, ad.decision == Spec.Promote, ad.reason)];
      return Spec.Done(());
    }

    method Evaluate(r: Spec.Rules, c: Spec.Candidate, evaluator: Spec.Candidate -> Option<Spec.Evaluation>)
        returns (o: Spec.Outcome<Spec.Evaluation>)
      modifies this
      ensures (o, State()) == Spec.Evaluate(r, old(State()), c, evaluator(c))
    {
      hide Spec.RecordCandidate, Spec.RecordEvaluation;
      var recorded := RecordCandidate(r, c);
      if recorded.Failed? { return Spec.Failed(recorded.error); }
      var receipt := evaluator(c);
      if receipt.None? { return Spec.Failed(Spec.PolicyRefused); }
      recorded := RecordEvaluation(r, c, receipt.value);
      if recorded.Failed? { return Spec.Failed(recorded.error); }
      return Spec.Done(receipt.value);
    }

    /** The single-seed gate: `decided` is the policy's answer for the two receipts. */
    method DecideChampionChallenger(r: Spec.Rules, challenger: Spec.Evaluation, decided: Option<Spec.Adoption>)
        returns (o: Spec.Outcome<Spec.Adoption>)
      modifies this
      ensures (o, State()) == Spec.DecideChampion(r, old(State()), challenger, decided)
    {
      hide Spec.RecordAdoption;
      if challenger.fingerprint !in evaluations { return Spec.Failed(Spec.EvaluationNotRecorded); }
      if decided.None? { return Spec.Failed(Spec.PolicyRefused); }
      var recorded := RecordAdoption(r, challenger, decided.value);
      if recorded.Failed? { return Spec.Failed(recorded.error); }
      return Spec.Done(decided.value);
    }

    /** Evidence first, then the veto by the least counterexample, then the adoption at its anchor. */
    method DecideRepeatedSeed(r: Spec.Rules, challengers: seq<Spec.Evaluation>, decided: Option<Spec.Verdict>)
        returns (o: Spec.Outcome<Spec.Verdict>)
      modifies this
      ensures (o, State()) == Spec.DecideRepeatedSeed(r, old(State()), challengers, decided)
    {
      hide Spec.RecordAdoption, Spec.RecordEvidence;
      if decided.None? { return Spec.Failed(Spec.PolicyRefused); }
      var v := decided.value;
      var recorded := RecordPromotionEvidence(v.evidence);
      if recorded.Failed? { return Spec.Failed(recorded.error); }
      var id := v.evidence.challengerCandidateId;
      if v.adoption.decision == Spec.Promote {
        var vetoed := HasCounterexample(id);
        if vetoed {
          var counterexample := Least(counterexamplesByCandidate[id]);
          var key := Spec.VetoKey(id, counterexample, v.evidence.fingerprint);
          if key !in counterexampleVetoes {
            counterexampleVetoes := counterexampleVetoes + {key};
            log := log + [Spec.VetoEntry(id, counterexample, v.evidence.fingerprint)];
          }
          return Spec.Failed(Spec.Vetoed(counterexample));
        }
      }
      var i := 0;
      while i < |challengers| && challengers[i].fingerprint != v.adoption.evaluationFingerprint
        invariant 0 <= i <= |challengers|
        invariant Spec.FindAnchor(challengers, v.adoption.evaluationFingerprint) == Spec.FindAnchor(challengers[i..], v.adoption.evaluationFingerprint)
      {
        assert challengers[i..][1..] == challengers[i + 1..];
        i := i + 1;
      }
      if i == |challengers| { return Spec.Failed(Spec.AnchorAbsent); }
      recorded := RecordAdoption(r, challengers[i], v.adoption);
      if recorded.Failed? { return Spec.Failed(recorded.error); }
      return Spec.Done(v);
    }
  }
}
