/** How far the counterexample veto reaches: exactly which calls put a promotion behind a counterexample. */
module PromotionVeto {
  import opened Results
  import opened Keys
  import opened Layers
  import opened CandidateAudit

  // ---------------------------------------------------------------- what a policy decides

  /** One row of evidence before it is bundled: champion and challenger, each with its envelope for the seed. */
  datatype Pair = Pair(championCandidate: Candidate, champion: Evaluation, challengerCandidate: Candidate, challenger: Evaluation)

  predicate ValidPair(r: Rules, p: Pair) {
    ValidEvaluation(r, p.championCandidate, p.champion) && ValidEvaluation(r, p.challengerCandidate, p.challenger)
  }

  function RowsOf(pairs: seq<Pair>): seq<Row> {
    seq(|pairs|, i requires 0 <= i < |pairs| => Row(pairs[i].champion.fingerprint, pairs[i].challenger.fingerprint))
  }

  /** One champion against one different challenger, content by content, over all pairs. */
  predicate OneContest(pairs: seq<Pair>, champion: Text, challenger: Text) {
    && champion != challenger
    && forall p :: p in pairs ==> p.championCandidate.candidateId == champion && p.challengerCandidate.candidateId == challenger
  }

  /**
   * What every decision of the repeated-seed policy is: both stages nonempty and valid, one contest,
   * evidence of all their rows (in the order of their seeds), and an adoption anchored at a
   * challenger of the holdout; a promotion quotes the fingerprint of its evidence.
   */
  ghost predicate DecidedFrom(r: Rules, selection: seq<Pair>, holdout: seq<Pair>, champion: Text, v: Verdict) {
    && selection != [] && holdout != []
    && OneContest(selection + holdout, champion, v.evidence.challengerCandidateId)
    && (forall p :: p in selection + holdout ==> ValidPair(r, p))
    && multiset(v.evidence.selection) == multiset(RowsOf(selection))
    && multiset(v.evidence.holdout) == multiset(RowsOf(holdout))
    && (exists p :: p in holdout && ValidAdoption(r, p.challenger, v.adoption))
    && (v.adoption.decision == Promote ==> exists text: Text :: v.adoption.reason == text + EVIDENCE_TAG + v.evidence.fingerprint)
  }

  // ---------------------------------------------------------------- exactly which calls promote

  /** `record_adoption` appends a promotion for these arguments. */
  predicate Promotable(r: Rules, a: Audit, e: Evaluation, ad: Adoption) {
    && ad.decision == Promote && ValidAdoption(r, e, ad) && e.fingerprint in a.evaluations
    && (exists fp :: fp in a.evidence && Contains(ad.reason, fp))
    && ad.fingerprint !in a.adoptions
  }

  /** A promoting entry for the candidate `id`; `about` gives the candidate that an evaluation is of. */
  predicate Promotes(about: Text -> Text, e: Entry, id: Text) {
    e.AdoptionEntry? && e.promotes && about(e.evaluation) == id
  }

  /** A repeated-seed promotion is anchored at an evaluation of the challenger its evidence names. */
  predicate FromPolicy(about: Text -> Text, call: Call) {
    call.CallRepeated? && call.decided.Some? && call.decided.value.adoption.decision == Promote ==>
      about(call.decided.value.adoption.evaluationFingerprint) == call.decided.value.evidence.challengerCandidateId
  }

  /** The adoption and the evaluation that the call records directly, without the veto. */
  function Direct(call: Call): Option<(Evaluation, Adoption)> {
    match call
    case CallAdoption(e, ad) => Some((e, ad))
    case CallChampion(e, adopted) => if adopted.Some? then Some((e, adopted.value)) else None
    case _ => None
  }

  /** The call records a promotion of `id` without asking for counterexamples. */
  predicate DirectlyPromotes(r: Rules, about: Text -> Text, a: Audit, call: Call, id: Text) {
    var d := Direct(call);
    d.Some? && about(d.value.0.fingerprint) == id && Promotable(r, a, d.value.0, d.value.1)
  }

  lemma AdoptionAppends(r: Rules, a: Audit, e: Evaluation, ad: Adoption)
    ensures var b := RecordAdoption(r, a, e, ad).1;
            && (Promotable(r, a, e, ad) ==> b.log == a.log + [AdoptionEntry(ad.fingerprint, e.fingerprint, true, ad.reason)])
            && (!Promotable(r, a, e, ad) ==> b.log == a.log || b.log == a.log + [AdoptionEntry(ad.fingerprint, e.fingerprint, false, ad.reason)])
  {
    hide Contains, ValidAdoption;
  }

  lemma AnchorIs(challengers: seq<Evaluation>, fp: Text)
    ensures FindAnchor(challengers, fp).Some? ==> FindAnchor(challengers, fp).value.fingerprint == fp
  {
  }

  ghost predicate PromotesSome(about: Text -> Text, entries: seq<Entry>, id: Text) {
    exists e :: e in entries && Promotes(about, e, id)
  }

  ghost predicate NoCounterexamples(entries: seq<Entry>) {
    forall e :: e in entries ==> !e.CounterexampleEntry?
  }

  ghost predicate NoAdoptions(entries: seq<Entry>) {
    forall e :: e in entries ==> !e.AdoptionEntry?
  }

  /** What a call appends: `tail`. */
  ghost predicate Appends(r: Rules, a: Audit, call: Call, tail: seq<Entry>) {
    Apply(r, a, call).log == a.log + tail
  }

  /** A repeated-seed call appends its evidence, if new, and then a veto or the adoption, if new. */
  lemma RepeatedAppends(r: Rules, a: Audit, call: Call, about: Text -> Text) returns (tail: seq<Entry>)
    requires call.CallRepeated? && FromPolicy(about, call)
    ensures Appends(r, a, call, tail) && NoCounterexamples(tail)
    ensures forall id :: HasCounterexample(a, id) ==> !PromotesSome(about, tail, id)
  {
    hide EvaluationsOf, RecordAdoption, ValidAdoption, Contains, VetoKey, RecordVeto;
    tail := [];
    if call.decided.Some? {
      var v := call.decided.value;
      var (first, a1) := RecordEvidence(a, v.evidence);
      if first.Done? {
        tail := if a1.log == a.log then [] else [EvidenceEntry(v.evidence.fingerprint, EvaluationsOf(v.evidence))];
        assert a1.log == a.log + tail && a1.counterexamples == a.counterexamples;
        assert NoAdoptions(tail) && NoCounterexamples(tail);
        NothingPromotes(about, tail);
        hide RecordEvidence, PromotesSome, Promotable;
        var id := v.evidence.challengerCandidateId;
        if v.adoption.decision == Promote && HasCounterexample(a1, id) {
          var more := VetoAppends(a1, id, Least(a1.counterexamples[id]), v.evidence.fingerprint);
          NothingPromotes(about, more);
          PromotesEither(about, tail, more);
          tail := tail + more;
        } else {
          var anchor := FindAnchor(call.challengers, v.adoption.evaluationFingerprint);
          AnchorIs(call.challengers, v.adoption.evaluationFingerprint);
          if anchor.Some? {
            var more := AdoptionTail(r, a1, anchor.value, v.adoption);
            PromotesEither(about, tail, more);
            tail := tail + more;
          }
        }
      }
    }
  }

  lemma NothingPromotes(about: Text -> Text, entries: seq<Entry>)
    requires NoAdoptions(entries)
    ensures forall id :: !PromotesSome(about, entries, id)
  {
  }

  lemma PromotesEither(about: Text -> Text, x: seq<Entry>, y: seq<Entry>)
    ensures forall id :: PromotesSome(about, x + y, id) <==> PromotesSome(about, x, id) || PromotesSome(about, y, id)
  {
    hide Promotes;
    forall id
      ensures PromotesSome(about, x + y, id) <==> PromotesSome(about, x, id) || PromotesSome(about, y, id)
    {
      assert forall e :: e in x + y <==> e in x || e in y;
    }
  }

  lemma VetoAppends(a: Audit, id: Text, counterexample: Text, evidence: Text) returns (tail: seq<Entry>)
    ensures RecordVeto(a, id, counterexample, evidence).log == a.log + tail
    ensures NoCounterexamples(tail) && NoAdoptions(tail)
  {
    hide VetoKey;
    tail := if RecordVeto(a, id, counterexample, evidence) == a then [] else [VetoEntry(id, counterexample, evidence)];
  }

  lemma AdoptionTail(r: Rules, a: Audit, e: Evaluation, ad: Adoption) returns (tail: seq<Entry>)
    ensures RecordAdoption(r, a, e, ad).1.log == a.log + tail && NoCounterexamples(tail)
    ensures forall about: Text -> Text, id ::
              PromotesSome(about, tail, id) <==> about(e.fingerprint) == id && Promotable(r, a, e, ad)
  {
    AdoptionAppends(r, a, e, ad);
    hide RecordAdoption, Promotable;
    var b := RecordAdoption(r, a, e, ad).1;
    if b.log == a.log {
      tail := [];
    } else {
      tail := [b.log[|a.log|]];
      if Promotable(r, a, e, ad) {
        forall about: Text -> Text
          ensures PromotesSome(about, tail, about(e.fingerprint))
        {
          assert Promotes(about, tail[0], about(e.fingerprint));
        }
      }
    }
  }

  /**
   * What any call appends: with a counterexample on file for a candidate, a promotion of it exactly
   * if the call records one directly. No call appends a counterexample together with an adoption.
   */
  lemma CallAppends(r: Rules, a: Audit, call: Call, about: Text -> Text) returns (tail: seq<Entry>)
    requires FromPolicy(about, call)
    ensures Appends(r, a, call, tail) && (NoCounterexamples(tail) || NoAdoptions(tail))
    ensures forall id :: HasCounterexample(a, id) ==> (PromotesSome(about, tail, id) <==> DirectlyPromotes(r, about, a, call, id))
  {
    hide Promotable, ValidAdoption, ValidEvaluation, EvaluationsOf, RecordAdoption;
    match call
    case CallRepeated(cs, decided) => tail := RepeatedAppends(r, a, call, about);
    case CallAdoption(e, ad) => tail := AdoptionTail(r, a, e, ad);
    case CallChampion(e, adopted) =>
      if adopted.Some? && e.fingerprint in a.evaluations {
        tail := AdoptionTail(r, a, e, adopted.value);
      } else {
        tail := [];
        if adopted.Some? { NotRecordedNotPromotable(r, a, e, adopted.value); }
      }
    case _ =>
      tail := OtherAppends(r, a, call);
  }

  lemma NotRecordedNotPromotable(r: Rules, a: Audit, e: Evaluation, ad: Adoption)
    requires e.fingerprint !in a.evaluations
    ensures !Promotable(r, a, e, ad)
  {
    hide ValidAdoption, Contains;
  }

  lemma OtherAppends(r: Rules, a: Audit, call: Call) returns (tail: seq<Entry>)
    requires Direct(call).None? && !call.CallRepeated? && !call.CallChampion?
    ensures Appends(r, a, call, tail) && NoAdoptions(tail)
  {
    hide ValidEvaluation, ValidWitness, EvaluationsOf;
    var b := Apply(r, a, call);
    tail := b.log[|a.log|..];
    assert b.log == a.log + tail;
  }

  /** With a counterexample on file, the calls that append a promotion of its candidate, exactly. */
  lemma PromotesExactly(r: Rules, a: Audit, call: Call, about: Text -> Text, id: Text)
    requires FromPolicy(about, call) && HasCounterexample(a, id)
    ensures a.log <= Apply(r, a, call).log
    ensures PromotesSome(about, Apply(r, a, call).log[|a.log|..], id) <==> DirectlyPromotes(r, about, a, call, id)
  {
    hide Apply, HasCounterexample, DirectlyPromotes, PromotesSome;
    var tail := CallAppends(r, a, call, about);
    assert (a.log + tail)[|a.log|..] == tail;
  }

  // ---------------------------------------------------------------- the veto over whole runs

  /** No promotion of a candidate comes after a counterexample for it. */
  ghost predicate VetoKept(about: Text -> Text, log: seq<Entry>) {
    forall i, j :: 0 <= i < j < |log| && log[i].CounterexampleEntry? ==> !Promotes(about, log[j], log[i].candidateId)
  }

  /** The call promotes some candidate directly although a counterexample for it is on file. */
  ghost predicate Bypasses(r: Rules, about: Text -> Text, a: Audit, call: Call) {
    exists id :: HasCounterexample(a, id) && DirectlyPromotes(r, about, a, call, id)
  }

  ghost predicate OnFile(log: seq<Entry>, id: Text) {
    exists i :: 0 <= i < |log| && log[i].CounterexampleEntry? && log[i].candidateId == id
  }

  lemma OnFileExactly(a: Audit, id: Text)
    requires Inv(a)
    ensures HasCounterexample(a, id) <==> OnFile(a.log, id)
  {
    CounterexampleIsJournaled(a, id);
    hide Inv, HasCounterexample;
    if HasCounterexample(a, id) {
      var fp :| Journaled(a.log, CounterexampleId(id, fp));
      var i :| 0 <= i < |a.log| && IdOf(a.log[i]) == CounterexampleId(id, fp);
    }
    if OnFile(a.log, id) {
      var i :| 0 <= i < |a.log| && a.log[i].CounterexampleEntry? && a.log[i].candidateId == id;
      assert IdOf(a.log[i]) == CounterexampleId(id, a.log[i].fingerprint);
      assert Journaled(a.log, CounterexampleId(id, a.log[i].fingerprint));
    }
  }

  lemma VetoKeptAppend(about: Text -> Text, log: seq<Entry>, tail: seq<Entry>)
    requires NoCounterexamples(tail) || NoAdoptions(tail)
    ensures VetoKept(about, log + tail) <==>
            VetoKept(about, log) && forall id :: OnFile(log, id) ==> !PromotesSome(about, tail, id)
  {
    var all := log + tail;
    if VetoKept(about, all) {
      forall i, j | 0 <= i < j < |log| && log[i].CounterexampleEntry?
        ensures !Promotes(about, log[j], log[i].candidateId)
      {
        assert all[i] == log[i] && all[j] == log[j];
      }
      forall id | OnFile(log, id)
        ensures !PromotesSome(about, tail, id)
      {
        var i :| 0 <= i < |log| && log[i].CounterexampleEntry? && log[i].candidateId == id;
        forall n | 0 <= n < |tail|
          ensures !Promotes(about, tail[n], id)
        {
          assert all[i] == log[i] && all[|log| + n] == tail[n];
        }
      }
    }
    if VetoKept(about, log) && forall id :: OnFile(log, id) ==> !PromotesSome(about, tail, id) {
      forall i, j | 0 <= i < j < |all| && all[i].CounterexampleEntry?
        ensures !Promotes(about, all[j], all[i].candidateId)
      {
        if j >= |log| {
          assert all[j] in tail;
          if i < |log| {
            assert OnFile(log, all[i].candidateId);
          } else {
            assert all[i] in tail;
          }
        }
      }
    }
  }

  /** One call keeps the veto unless it bypasses it. */
  lemma StepKeepsVeto(r: Rules, a: Audit, call: Call, about: Text -> Text)
    requires Inv(a) && FromPolicy(about, call)
    ensures VetoKept(about, Apply(r, a, call).log) <==> VetoKept(about, a.log) && !Bypasses(r, about, a, call)
  {
    hide Apply, HasCounterexample, DirectlyPromotes, PromotesSome, Inv, VetoKept, OnFile, FromPolicy;
    var tail := CallAppends(r, a, call, about);
    VetoKeptAppend(about, a.log, tail);
    forall id
      ensures HasCounterexample(a, id) <==> OnFile(a.log, id)
    {
      OnFileExactly(a, id);
    }
  }

  /**
   * Over every run: no promotion of a candidate ever follows a counterexample for it if and only if
   * no call records one directly while a counterexample for its candidate is on file.
   */
  lemma {:induction false} VetoKeptExactly(r: Rules, calls: seq<Call>, about: Text -> Text)
    requires forall n :: 0 <= n < |calls| ==> FromPolicy(about, calls[n])
    ensures VetoKept(about, After(r, calls).log) <==>
            forall n :: 0 <= n < |calls| ==> !Bypasses(r, about, After(r, calls[..n]), calls[n])
  {
    hide Apply, Bypasses, Inv, FromPolicy, VetoKept;
    if calls == [] {
      assert VetoKept(about, After(r, calls).log) by { EmptyKeepsVeto(about); }
    } else {
      var n := |calls| - 1;
      var front := calls[..n];
      VetoKeptExactly(r, front, about);
      EveryRunKeepsInv(r, front);
      StepKeepsVeto(r, After(r, front), calls[n], about);
      forall i | 0 <= i < n
        ensures front[..i] == calls[..i]
      {
      }
    }
  }

  lemma EmptyKeepsVeto(about: Text -> Text)
    ensures VetoKept(about, [])
  {
  }

  /** So a run whose promotions all come through the repeated-seed gate keeps the veto. */
  lemma GatedRunsKeepVeto(r: Rules, calls: seq<Call>, about: Text -> Text)
    requires forall n :: 0 <= n < |calls| ==> FromPolicy(about, calls[n])
    requires forall n :: 0 <= n < |calls| && Direct(calls[n]).Some? ==> Direct(calls[n]).value.1.decision != Promote
    ensures VetoKept(about, After(r, calls).log)
  {
    hide After, HasCounterexample, FromPolicy, VetoKept;
    VetoKeptExactly(r, calls, about);
  }

  /** Every decision of the policy names the right candidate, when `about` does for its holdout. */
  lemma DecisionsAreFromPolicy(r: Rules, selection: seq<Pair>, holdout: seq<Pair>, champion: Text, v: Verdict, about: Text -> Text,
                               challengers: seq<Evaluation>)
    requires DecidedFrom(r, selection, holdout, champion, v)
    requires forall p :: p in holdout ==> about(p.challenger.fingerprint) == p.challengerCandidate.candidateId
    ensures FromPolicy(about, CallRepeated(challengers, Some(v)))
  {
    hide Contains, ValidPair;
    var p :| p in holdout && ValidAdoption(r, p.challenger, v.adoption);
    assert p in selection + holdout;
  }

  // ---------------------------------------------------------------- a run that goes around the veto

  /** Both evaluations of every pair, through the sealed evaluator. */
  function EvaluatePairs(pairs: seq<Pair>): seq<Call> {
    if pairs == [] then []
    else
      var p := pairs[|pairs| - 1];
      EvaluatePairs(pairs[..|pairs| - 1])
      + [CallEvaluate(p.championCandidate, Some(p.champion)), CallEvaluate(p.challengerCandidate, Some(p.challenger))]
  }

  /**
   * The decision of the policy, taken apart: its evidence and its adoption are recorded each on its
   * own, after a counterexample for the challenger.
   */
  function TakenApart(selection: seq<Pair>, holdout: seq<Pair>, c: Candidate, w: Witness, anchor: Evaluation, v: Verdict): seq<Call> {
    EvaluatePairs(selection + holdout) + [CallCounterexample(c, w), CallEvidence(v.evidence), CallAdoption(anchor, v.adoption)]
  }

  /** All the pairs are on record, and nothing is adopted or refuted. */
  ghost predicate OnRecord(a: Audit, pairs: seq<Pair>) {
    && a.adoptions == {} && a.counterexamples == map[]
    && forall p :: p in pairs ==>
         && p.champion.fingerprint in a.evaluations && p.challenger.fingerprint in a.evaluations
         && p.challengerCandidate.fingerprint in a.candidates
  }

  lemma AfterSnoc(r: Rules, calls: seq<Call>, call: Call)
    ensures After(r, calls + [call]) == Apply(r, After(r, calls), call)
  {
    hide Apply;
    assert (calls + [call])[..|calls|] == calls;
  }

  lemma EvaluateRecords(r: Rules, a: Audit, c: Candidate, e: Evaluation)
    requires ValidEvaluation(r, c, e)
    ensures var b := Evaluate(r, a, c, Some(e)).1;
            && c.fingerprint in b.candidates && e.fingerprint in b.evaluations
            && a.candidates <= b.candidates && a.evaluations <= b.evaluations
            && b.adoptions == a.adoptions && b.counterexamples == a.counterexamples
  {
  }

  lemma {:induction false} PairsOnRecord(r: Rules, pairs: seq<Pair>)
    requires forall p :: p in pairs ==> ValidPair(r, p)
    ensures OnRecord(After(r, EvaluatePairs(pairs)), pairs)
  {
    hide ValidEvaluation, Evaluate;
    if pairs != [] {
      var n := |pairs| - 1;
      var p, before := pairs[n], EvaluatePairs(pairs[..n]);
      assert p in pairs && ValidPair(r, p);
      PairsOnRecord(r, pairs[..n]);
      var first, second := CallEvaluate(p.championCandidate, Some(p.champion)), CallEvaluate(p.challengerCandidate, Some(p.challenger));
      AfterSnoc(r, before, first);
      AfterSnoc(r, before + [first], second);
      assert EvaluatePairs(pairs) == before + [first] + [second];
      EvaluateRecords(r, After(r, before), p.championCandidate, p.champion);
      EvaluateRecords(r, After(r, before + [first]), p.challengerCandidate, p.challenger);
      assert pairs == pairs[..n] + [p];
    }
  }

  /** Whatever order the rows are in, every evaluation that the evidence names is on record. */
  lemma EvidenceOnRecord(a: Audit, selection: seq<Pair>, holdout: seq<Pair>, ev: Evidence)
    requires OnRecord(a, selection + holdout)
    requires multiset(ev.selection) == multiset(RowsOf(selection)) && multiset(ev.holdout) == multiset(RowsOf(holdout))
    ensures forall fp :: fp in EvaluationsOf(ev) ==> fp in a.evaluations
  {
    forall row | row in ev.selection + ev.holdout
      ensures row.champion in a.evaluations && row.challenger in a.evaluations
    {
      if row in ev.selection {
        var i := RowFrom(selection, ev.selection, row);
        assert selection[i] in selection + holdout;
      } else {
        var i := RowFrom(holdout, ev.holdout, row);
        assert holdout[i] in selection + holdout;
      }
    }
    hide OnRecord;
    var rows := ev.selection + ev.holdout;
    assert forall i :: 0 <= i < |rows| ==> rows[i] in rows;
  }

  lemma RowFrom(pairs: seq<Pair>, rows: seq<Row>, row: Row) returns (i: nat)
    requires multiset(rows) == multiset(RowsOf(pairs)) && row in rows
    ensures i < |pairs| && row == Row(pairs[i].champion.fingerprint, pairs[i].challenger.fingerprint)
  {
    assert row in multiset(RowsOf(pairs));
    i :| 0 <= i < |RowsOf(pairs)| && RowsOf(pairs)[i] == row;
  }

  lemma {:induction false} ContainsInside(before: Text, part: Text, after: Text)
    ensures Contains(before + part + after, part)
  {
    if before == [] {
      assert part <= before + part + after;
    } else {
      ContainsInside(before[1..], part, after);
      assert (before + part + after)[1..] == before[1..] + part + after;
    }
  }

  /** The three calls that follow the evaluations, one by one. */
  lemma ThreeRecords(r: Rules, a: Audit, c: Candidate, w: Witness, anchor: Evaluation, v: Verdict, text: Text)
    requires a.adoptions == {} && a.counterexamples == map[] && c.fingerprint in a.candidates && anchor.fingerprint in a.evaluations
    requires ValidWitness(r, c, w) && ValidAdoption(r, anchor, v.adoption) && v.adoption.decision == Promote
    requires v.adoption.reason == text + EVIDENCE_TAG + v.evidence.fingerprint
    requires forall fp :: fp in EvaluationsOf(v.evidence) ==> fp in a.evaluations
    ensures var a1 := RecordCounterexample(r, a, c, w).1;
            var a3 := RecordAdoption(r, RecordEvidence(a1, v.evidence).1, anchor, v.adoption).1;
            && a1.log == a.log + [CounterexampleEntry(c.candidateId, w.fingerprint, c.fingerprint)]
            && HasCounterexample(a1, c.candidateId) && a1.log < a3.log
            && a3.log[|a3.log| - 1] == AdoptionEntry(v.adoption.fingerprint, anchor.fingerprint, true, v.adoption.reason)
  {
    ContainsInside(text + EVIDENCE_TAG, v.evidence.fingerprint, []);
    assert text + EVIDENCE_TAG + v.evidence.fingerprint + [] == v.adoption.reason;
    hide Contains, EvaluationsOf, ValidWitness, ValidAdoption;
    var a1 := RecordCounterexample(r, a, c, w).1;
    assert ValidWitness(r, c, w);
    var a2 := RecordEvidence(a1, v.evidence).1;
    assert v.evidence.fingerprint in a2.evidence && a1.log <= a2.log && a2.adoptions == {};
    AdoptionAppends(r, a2, anchor, v.adoption);
  }

  /**
   * For every promotion the policy decides: record its evaluations, refute the challenger, then record
   * the decision's two parts. The journal ends with the promotion, after the counterexample for the
   * candidate that the evidence names; the repeated-seed gate would have vetoed the same decision.
   */
  lemma PromotionBehindCounterexample(r: Rules, selection: seq<Pair>, holdout: seq<Pair>, champion: Text, v: Verdict,
                                      refuted: Pair, w: Witness, anchor: Pair)
    requires DecidedFrom(r, selection, holdout, champion, v) && v.adoption.decision == Promote
    requires refuted in selection + holdout && ValidWitness(r, refuted.challengerCandidate, w)
    requires anchor in holdout && ValidAdoption(r, anchor.challenger, v.adoption)
    ensures var id := v.evidence.challengerCandidateId;
            var calls := TakenApart(selection, holdout, refuted.challengerCandidate, w, anchor.challenger, v);
            var log := After(r, calls).log;
            && (exists i :: 0 <= i < |log| - 1 && log[i] == CounterexampleEntry(id, w.fingerprint, refuted.challengerCandidate.fingerprint))
            && log[|log| - 1] == AdoptionEntry(v.adoption.fingerprint, anchor.challenger.fingerprint, true, v.adoption.reason)
    ensures var refutedState := After(r, EvaluatePairs(selection + holdout) + [CallCounterexample(refuted.challengerCandidate, w)]);
            forall challengers :: DecideRepeatedSeed(r, refutedState, challengers, Some(v)).0 == Failed(Vetoed(w.fingerprint))
  {
    var pairs, c, e := selection + holdout, refuted.challengerCandidate, anchor.challenger;
    var text: Text :| v.adoption.reason == text + EVIDENCE_TAG + v.evidence.fingerprint;
    PairsOnRecord(r, pairs);
    var before := EvaluatePairs(pairs);
    var a := After(r, before);
    EvidenceOnRecord(a, selection, holdout, v.evidence);
    assert anchor in pairs;
    ThreeRecords(r, a, c, w, e, v, text);
    CounterexampleVetoes(r, a, c, w, v);
    hide After, RecordEvidence, RecordAdoption, RecordCounterexample, EvaluationsOf, Contains, ValidAdoption, ValidWitness, ValidPair, DecideRepeatedSeed;
    var calls := TakenApart(selection, holdout, c, w, e, v);
    var one, two := before + [CallCounterexample(c, w)], before + [CallCounterexample(c, w)] + [CallEvidence(v.evidence)];
    assert calls == two + [CallAdoption(e, v.adoption)];
    AfterSnoc(r, before, CallCounterexample(c, w));
    AfterSnoc(r, one, CallEvidence(v.evidence));
    AfterSnoc(r, two, CallAdoption(e, v.adoption));
    var a1, log := After(r, one), After(r, calls).log;
    assert a1.log < log && a1.log[|a.log|] == log[|a.log|];
  }

  /** At that point the gate vetoes the decision, with the one counterexample on file. */
  lemma CounterexampleVetoes(r: Rules, a: Audit, c: Candidate, w: Witness, v: Verdict)
    requires a.counterexamples == map[] && c.fingerprint in a.candidates && ValidWitness(r, c, w)
    requires v.adoption.decision == Promote && v.evidence.challengerCandidateId == c.candidateId
    requires forall fp :: fp in EvaluationsOf(v.evidence) ==> fp in a.evaluations
    ensures forall challengers ::
              DecideRepeatedSeed(r, RecordCounterexample(r, a, c, w).1, challengers, Some(v)).0 == Failed(Vetoed(w.fingerprint))
  {
    hide EvaluationsOf, RecordVeto, FindAnchor, RecordAdoption;
    var a1 := RecordCounterexample(r, a, c, w).1;
    assert a1.counterexamples[c.candidateId] == {w.fingerprint};
    assert Least({w.fingerprint}) == w.fingerprint;
  }

  /** Such decisions exist: two candidates, one pair per stage, validators that accept. */
  lemma SuchPromotionsExist() returns (r: Rules, selection: seq<Pair>, holdout: seq<Pair>, champion: Text, v: Verdict, w: Witness)
    ensures DecidedFrom(r, selection, holdout, champion, v) && v.adoption.decision == Promote
    ensures ValidWitness(r, holdout[0].challengerCandidate, w) && ValidAdoption(r, holdout[0].challenger, v.adoption)
  {
    r := Rules(_ => true, (_, _) => true, (_, _) => true, (_, _) => true);
    champion := [1];
    var p := Pair(Candidate([11], [1]), Evaluation([21], [11]), Candidate([12], [2]), Evaluation([22], [12]));
    var q := Pair(Candidate([13], [1]), Evaluation([23], [13]), Candidate([14], [2]), Evaluation([24], [14]));
    selection, holdout := [p], [q];
    var ev := Evidence([31], [2], RowsOf(selection), RowsOf(holdout));
    v := Verdict(ev, Adoption([41], [24], Promote, [] + EVIDENCE_TAG + [31]));
    w := Witness([51], [14]);
    ContainsInside([], EVIDENCE_TAG, [31]);
    assert q in holdout && ValidAdoption(r, q.challenger, v.adoption);
    assert v.adoption.reason == [] + EVIDENCE_TAG + ev.fingerprint;
  }
}
