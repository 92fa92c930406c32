/** Convergence can always be reached: from every reachable world some continuation brings all sessions together. */
module CatchUp {
  import opened Results
  import opened Keys
  import opened Replay
  import opened HashChain
  import opened Sync
  import opened Federation

  ghost function Last(states: seq<World>): World
    requires states != []
  {
    states[|states| - 1]
  }

  /** `r` holds the whole log of `x`. */
  ghost predicate Holds(w: World, r: AgentId, x: AgentId) {
    r in w.agents && x in w.agents && (x != r ==> Known(w.agents[r].foreign, x).ops == w.agents[x].ops)
  }

  ghost predicate SameLogs(w: World, w': World) {
    w.agents.Keys == w'.agents.Keys && forall a :: a in w.agents ==> w'.agents[a].ops == w.agents[a].ops
  }

  /** A run that continues another without recording anything. */
  ghost predicate Continuation(h: LinkHash, c: Crypto, states: seq<World>, steps: seq<Step>, states': seq<World>, steps': seq<Step>) {
    && Run(h, c, states', steps') && states != [] && states <= states' && steps <= steps'
    && SameLogs(Last(states), Last(states'))
  }

  /** One more enabled step makes a longer run. */
  lemma ExtendRun(h: LinkHash, c: Crypto, states: seq<World>, steps: seq<Step>, s: Step)
    requires SignaturesVerify(c) && Run(h, c, states, steps) && Enabled(Last(states), s)
    ensures forall r :: r in Last(states).agents ==> Paired(Last(states).agents[r].foreign)
    ensures Run(h, c, states + [Next(h, c, Last(states), s)], steps + [s])
  {
    hide Next, Enabled, Inv, Initial, SignaturesVerify;
    RunKeepsInv(h, c, states, steps, |steps|);
    InvPaired(h, c, Last(states));
    var ws, ss := states + [Next(h, c, Last(states), s)], steps + [s];
    forall i | 0 <= i < |ss|
      ensures && Enabled(ws[i], ss[i])
              && (forall r :: r in ws[i].agents ==> Paired(ws[i].agents[r].foreign))
              && ws[i + 1] == Next(h, c, ws[i], ss[i])
    {
      if i < |steps| {
        assert ws[i] == states[i] && ws[i + 1] == states[i + 1] && ss[i] == steps[i];
      } else {
        assert ws[i] == Last(states);
      }
    }
  }

  lemma ViewIsPrefix(h: LinkHash, c: Crypto, w: World, r: AgentId, x: AgentId)
    requires r in w.agents && x in w.agents && x != r && HonestView(h, c, w, r)
    ensures Known(w.agents[r].foreign, x).ops <= w.agents[x].ops
  {
    hide ValidForeign;
  }

  /** What is held stays held while no log grows. */
  lemma HeldStaysHeld(h: LinkHash, c: Crypto, w: World, w': World, r: AgentId, x: AgentId)
    requires Inv(h, c, w') && Grows(w, w') && SameLogs(w, w') && Holds(w, r, x)
    ensures Holds(w', r, x)
  {
    assert HonestView(h, c, w', r) && AgentGrows(w.agents[r], w'.agents[r]);
    hide HonestView, Inv, Grows;
    if x != r {
      ViewIsPrefix(h, c, w', r, x);
      assert Known(w.agents[r].foreign, x).ops <= Known(w'.agents[r].foreign, x).ops;
    }
  }

  /** Exporting everything and delivering it: the receiver holds the log, nobody's log changed. */
  lemma ExportAndDeliver(h: LinkHash, c: Crypto, w: World, r: AgentId, x: AgentId) returns (exported: World, b: SyncBundle)
    requires SignaturesVerify(c) && Inv(h, c, w) && r in w.agents && x in w.agents && x != r
    ensures forall a :: a in w.agents ==> Paired(w.agents[a].foreign) && a in exported.agents && Paired(exported.agents[a].foreign)
    ensures Enabled(w, ExportStep(x, 0)) && exported == Next(h, c, w, ExportStep(x, 0))
    ensures r in exported.agents && Enabled(exported, DeliverStep(r, b))
    ensures exported.agents == w.agents
    ensures Holds(Next(h, c, exported, DeliverStep(r, b)), r, x)
    ensures SameLogs(w, Next(h, c, exported, DeliverStep(r, b)))
  {
    hide ExportOf, Delivery, Inv, Paired, SignaturesVerify;
    InvPaired(h, c, w);
    FullExportCatchesUp(h, c, w, x, r);
    b := ExportOf(h, c, x, w.agents[x].ops, 0).value;
    exported := w.(sent := w.sent + {b});
  }

  lemma CatchUpOne(h: LinkHash, c: Crypto, states: seq<World>, steps: seq<Step>, r: AgentId, x: AgentId)
    returns (states': seq<World>, steps': seq<Step>)
    requires SignaturesVerify(c) && Run(h, c, states, steps) && r in Last(states).agents && x in Last(states).agents
    ensures Continuation(h, c, states, steps, states', steps')
    ensures Holds(Last(states'), r, x)
  {
    hide Run, Inv, Next, Enabled, SignaturesVerify;
    RunLengths(h, c, states, steps);
    if x == r {
      states', steps' := states, steps;
    } else {
      RunKeepsInv(h, c, states, steps, |steps|);
      var exported, b := ExportAndDeliver(h, c, Last(states), r, x);
      ExtendRun(h, c, states, steps, ExportStep(x, 0));
      ExtendRun(h, c, states + [exported], steps + [ExportStep(x, 0)], DeliverStep(r, b));
      var delivered := Next(h, c, exported, DeliverStep(r, b));
      states' := states + [exported] + [delivered];
      steps' := steps + [ExportStep(x, 0)] + [DeliverStep(r, b)];
    }
  }

  lemma RunLengths(h: LinkHash, c: Crypto, states: seq<World>, steps: seq<Step>)
    requires Run(h, c, states, steps)
    ensures |states| == |steps| + 1
  {
  }

  lemma ContinuationKeepsHeld(h: LinkHash, c: Crypto, states: seq<World>, steps: seq<Step>, states': seq<World>, steps': seq<Step>,
                              r: AgentId, x: AgentId)
    requires SignaturesVerify(c) && Run(h, c, states, steps) && Continuation(h, c, states, steps, states', steps')
    requires Holds(Last(states), r, x)
    ensures Holds(Last(states'), r, x)
  {
    hide Run, Inv, Grows, Holds, SameLogs;
    RunLengths(h, c, states, steps);
    RunLengths(h, c, states', steps');
    RunKeepsInv(h, c, states', steps', |steps'|);
    RunGrows(h, c, states', steps', |steps|, |steps'|);
    HeldStaysHeld(h, c, Last(states), Last(states'), r, x);
  }

  lemma ContinuationsCompose(h: LinkHash, c: Crypto, s0: seq<World>, t0: seq<Step>, s1: seq<World>, t1: seq<Step>, s2: seq<World>, t2: seq<Step>)
    requires Continuation(h, c, s0, t0, s1, t1) && Continuation(h, c, s1, t1, s2, t2)
    ensures Continuation(h, c, s0, t0, s2, t2)
  {
    hide Run;
  }

  lemma {:induction false} CatchUpPairs(h: LinkHash, c: Crypto, states: seq<World>, steps: seq<Step>, todo: set<(AgentId, AgentId)>)
    returns (states': seq<World>, steps': seq<Step>)
    requires SignaturesVerify(c) && Run(h, c, states, steps)
    requires forall p :: p in todo ==> p.0 in Last(states).agents && p.1 in Last(states).agents
    ensures Continuation(h, c, states, steps, states', steps')
    ensures forall p :: p in todo ==> Holds(Last(states'), p.0, p.1)
    decreases |todo|
  {
    if todo == {} {
      RunLengths(h, c, states, steps);
      states', steps' := states, steps;
    } else {
      hide Run, Holds, SameLogs;
      var p :| p in todo;
      var ws, ss := CatchUpPairs(h, c, states, steps, todo - {p});
      states', steps' := CatchUpOne(h, c, ws, ss, p.0, p.1);
      ContinuationsCompose(h, c, states, steps, ws, ss, states', steps');
      forall q | q in todo
        ensures Holds(Last(states'), q.0, q.1)
      {
        if q != p { ContinuationKeepsHeld(h, c, ws, ss, states', steps', q.0, q.1); }
      }
    }
  }

  /** Every reachable world has a continuation, recording nothing, in which every session holds every log. */
  lemma EveryRunCanCatchUp(h: LinkHash, c: Crypto, states: seq<World>, steps: seq<Step>)
    returns (states': seq<World>, steps': seq<Step>)
    requires SignaturesVerify(c) && Run(h, c, states, steps)
    ensures Continuation(h, c, states, steps, states', steps')
    ensures forall r :: r in Last(states').agents ==> CaughtUp(Last(states'), r)
  {
    RunLengths(h, c, states, steps);
    hide Run;
    var agents := Last(states).agents.Keys;
    var todo := set r, x | r in agents && x in agents :: (r, x);
    states', steps' := CatchUpPairs(h, c, states, steps, todo);
    var w := Last(states');
    forall r, x | r in w.agents && x in w.agents && x != r
      ensures Known(w.agents[r].foreign, x).ops == w.agents[x].ops
    {
      assert (r, x) in todo;
    }
  }

  /** And there all merged views agree. */
  lemma EveryRunCanConverge<B, F, E>(h: LinkHash, c: Crypto, states: seq<World>, steps: seq<Step>, k: Kernel<B, F, E>)
    returns (states': seq<World>, steps': seq<Step>)
    requires SignaturesVerify(c) && Run(h, c, states, steps)
    ensures Continuation(h, c, states, steps, states', steps')
    ensures var w := Last(states');
            forall a, b :: a in w.agents && b in w.agents ==>
              MergedView(k, a, w.agents[a].ops, w.agents[a].foreign) == MergedView(k, b, w.agents[b].ops, w.agents[b].foreign)
  {
    states', steps' := EveryRunCanCatchUp(h, c, states, steps);
    RunLengths(h, c, states', steps');
    hide Run, CaughtUp, MergedView, SameLogs;
    var w := Last(states');
    forall a, b | a in w.agents && b in w.agents
      ensures MergedView(k, a, w.agents[a].ops, w.agents[a].foreign) == MergedView(k, b, w.agents[b].ops, w.agents[b].foreign)
    {
      CaughtUpSessionsConverge(h, c, states', steps', |steps'|, k, a, b);
    }
  }
}
