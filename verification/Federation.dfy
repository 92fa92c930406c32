/** Many sessions recording, exporting and importing over a network that loses, repeats and reorders. */
module Federation {
  import opened Results
  import opened Keys
  import opened Replay
  import opened HashChain
  import opened Sync
  import opened SyncVerdicts
  import opened Layers

  /** What one session contributes to the exchange; nothing is compacted. */
  datatype Agent = Agent(ops: seq<Op>, foreign: Foreign, pins: Pins)

  /** The sessions, and every bundle ever handed to the network. */
  datatype World = World(agents: map<AgentId, Agent>, sent: set<SyncBundle>)

  /** Key material: the seed an agent signs with, if any, the key that verifies it, and signatures. */
  datatype Crypto = Crypto(seedOf: AgentId -> Option<Text>, publicOf: Text -> Text, sign: (SyncBundle, Text) -> Text, check: SigCheck)

  /** The verifying key an agent publishes, if it signs. */
  function KeyOf(c: Crypto, a: AgentId): Option<Text> {
    if c.seedOf(a).Some? then Some(c.publicOf(c.seedOf(a).value)) else None
  }

  function Signed(c: Crypto, b: SyncBundle): SyncBundle {
    SignWith(c.seedOf(b.agent), c.publicOf, c.sign, b)
  }

  /** Honest signatures verify. */
  ghost predicate SignaturesVerify(c: Crypto) {
    forall b: SyncBundle :: c.seedOf(b.agent).Some? ==>
      c.check(Signed(c, b), KeyOf(c, b.agent).value, c.sign(b, c.seedOf(b.agent).value)) == None
  }

  datatype Step =
    | RecordStep(agent: AgentId, op: Op)
    | ExportStep(agent: AgentId, since: nat)
    | DeliverStep(receiver: AgentId, bundle: SyncBundle)

  /** A bundle can be delivered any time after it was sent, any number of times, or never. */
  ghost predicate Enabled(w: World, s: Step) {
    match s
    case RecordStep(a, _) => a in w.agents
    case ExportStep(a, since) => a in w.agents && since <= |w.agents[a].ops|
    case DeliverStep(r, b) => r in w.agents && b in w.sent
  }

  function ExportOf(h: LinkHash, c: Crypto, a: AgentId, ops: seq<Op>, since: nat): Outcome<SyncBundle> {
    match Export(a, GENESIS, 0, ops, ChainOver(h, GENESIS, 0, ops), since)
    case Accepted(b) => Accepted(Signed(c, b))
    case Refused(e) => Refused(e)
  }

  ghost predicate Paired(foreign: Foreign) {
    forall a :: a in foreign ==> |foreign[a].ops| == |foreign[a].chain|
  }

  ghost function Delivery(h: LinkHash, c: Crypto, w: World, r: AgentId, b: SyncBundle): Imported
    requires r in w.agents && Paired(w.agents[r].foreign)
  {
    Import(h, c.check, r, w.agents[r].foreign, w.agents[r].pins, b)
  }

  ghost function Delivered(h: LinkHash, c: Crypto, w: World, r: AgentId, b: SyncBundle): World
    requires r in w.agents && Paired(w.agents[r].foreign)
  {
    var d := Delivery(h, c, w, r, b);
    w.(agents := w.agents[r := w.agents[r].(foreign := d.foreign, pins := d.pins)])
  }

  ghost function Next(h: LinkHash, c: Crypto, w: World, s: Step): World
    requires Enabled(w, s) && forall r :: r in w.agents ==> Paired(w.agents[r].foreign)
  {
    match s
    case RecordStep(a, op) =>
      w.(agents := w.agents[a := w.agents[a].(ops := w.agents[a].ops + [op])])
    case ExportStep(a, since) =>
      var e := ExportOf(h, c, a, w.agents[a].ops, since);
      if e.Accepted? then w.(sent := w.sent + {e.value}) else w
    case DeliverStep(r, b) => Delivered(h, c, w, r, b)
  }

  // ---------------------------------------------------------------- the invariant

  /** A bundle of an honest agent: a stretch of its log under its own key. */
  ghost predicate HonestBundle(h: LinkHash, c: Crypto, w: World, b: SyncBundle) {
    && b.agent in w.agents
    && Segment(h, b, w.agents[b.agent].ops)
    && b.pubkey == KeyOf(c, b.agent)
    && b.sig.Some? == b.pubkey.Some?
    && (b.sig.Some? ==> c.check(b, b.pubkey.value, b.sig.value) == None)
  }

  /** What a session holds of others: prefixes of their logs, and their own keys. */
  ghost predicate HonestView(h: LinkHash, c: Crypto, w: World, r: AgentId)
    requires r in w.agents
  {
    var me := w.agents[r];
    && ValidForeign(h, me.foreign)
    && r !in me.foreign
    && (forall x :: x in me.foreign ==> x in w.agents && me.foreign[x].ops <= w.agents[x].ops)
    && (forall x :: x in me.pins ==> KeyOf(c, x) == Some(me.pins[x]))
  }

  ghost predicate Inv(h: LinkHash, c: Crypto, w: World) {
    && [] !in w.agents
    && (forall b :: b in w.sent ==> HonestBundle(h, c, w, b))
    && (forall r :: r in w.agents ==> HonestView(h, c, w, r))
  }

  ghost predicate Initial(w: World) {
    && [] !in w.agents && w.sent == {}
    && forall r :: r in w.agents ==> w.agents[r] == Agent([], map[], map[])
  }

  lemma InvPaired(h: LinkHash, c: Crypto, w: World)
    requires Inv(h, c, w)
    ensures forall r :: r in w.agents ==> Paired(w.agents[r].foreign)
  {
    forall r | r in w.agents
      ensures Paired(w.agents[r].foreign)
    {
      assert HonestView(h, c, w, r);
    }
  }

  lemma HonestAuthenticates(h: LinkHash, c: Crypto, w: World, r: AgentId, b: SyncBundle)
    requires r in w.agents && HonestView(h, c, w, r) && HonestBundle(h, c, w, b)
    ensures Authenticate(c.check, w.agents[r].pins, b).Accepted?
    ensures var a := Authenticate(c.check, w.agents[r].pins, b).value; a.Some? ==> a == KeyOf(c, b.agent)
  {
    hide Segment, Linked;
  }

  /** The log of an honest agent is one history with everything a receiver holds of it. */
  lemma HonestOneHistory(h: LinkHash, c: Crypto, w: World, r: AgentId, b: SyncBundle)
    requires r in w.agents && HonestView(h, c, w, r) && HonestBundle(h, c, w, b)
    ensures OneHistory(h, Known(w.agents[r].foreign, b.agent).ops, b)
    ensures Known(w.agents[r].foreign, b.agent).ops <= w.agents[b.agent].ops
  {
    hide Segment, Linked;
    assert Known(w.agents[r].foreign, b.agent).ops <= w.agents[b.agent].ops && Segment(h, b, w.agents[b.agent].ops);
  }

  /** Honest traffic is never refused as tampered, equivocating or badly signed: at worst it comes too early. */
  lemma HonestVerdict(h: LinkHash, c: Crypto, w: World, r: AgentId, b: SyncBundle)
    requires Inv(h, c, w) && r in w.agents && b in w.sent
    ensures Paired(w.agents[r].foreign)
    ensures var known := |Known(w.agents[r].foreign, b.agent).ops|;
            var o := Delivery(h, c, w, r, b).outcome;
            if b.agent == r then o == Refused(SelfImport)
            else if b.firstSeq <= known then o.Accepted?
            else o.Refused? && o.error.Gap?
  {
    hide Segment, Linked, OneHistory, Authenticate, WellFormed, LinkHolds, Extended, CheckContinuity;
    InvPaired(h, c, w);
    assert HonestView(h, c, w, r) && HonestBundle(h, c, w, b);
    if b.agent != r {
      HonestAuthenticates(h, c, w, r, b);
      HonestOneHistory(h, c, w, r, b);
      OneHistoryIsAdmitted(h, c.check, r, w.agents[r].foreign, w.agents[r].pins, b);
    }
  }

  /** What an accepted honest bundle leaves is still a prefix of the sender's log. */
  lemma DeliveryKeepsPrefix(h: LinkHash, c: Crypto, w: World, r: AgentId, b: SyncBundle)
    requires Inv(h, c, w) && r in w.agents && b in w.sent
    ensures Paired(w.agents[r].foreign)
    ensures var d := Delivery(h, c, w, r, b);
            d.outcome.Accepted? ==>
              && b.agent in d.foreign && b.agent != r
              && d.foreign[b.agent].ops <= w.agents[b.agent].ops
              && |d.foreign[b.agent].ops| >= b.firstSeq + |b.ops|
  {
    assert HonestView(h, c, w, r) && HonestBundle(h, c, w, b);
    hide Linked, OneHistory, ChainOver, Admit, Inv, ValidForeign, Extended;
    InvPaired(h, c, w);
    HonestOneHistory(h, c, w, r, b);
    HonestVerdict(h, c, w, r, b);
    var d := Delivery(h, c, w, r, b);
    if d.outcome.Accepted? {
      ExtendedWithin(Known(w.agents[r].foreign, b.agent), b, w.agents[b.agent].ops);
    }
  }

  lemma ExtendedWithin(known: ForeignLog, b: SyncBundle, log: seq<Op>)
    requires known.ops <= log && b.firstSeq <= |known.ops| && |b.ops| == |b.chain|
    requires b.firstSeq + |b.ops| <= |log| && b.ops == log[b.firstSeq..b.firstSeq + |b.ops|]
    ensures Extended(known, b).ops <= log
    ensures |Extended(known, b).ops| >= b.firstSeq + |b.ops|
  {
  }

  // ---------------------------------------------------------------- every step keeps the invariant

  lemma HonestBundleOfLonger(h: LinkHash, c: Crypto, w: World, w': World, b: SyncBundle)
    requires HonestBundle(h, c, w, b)
    requires forall a :: a in w.agents ==> a in w'.agents && w.agents[a].ops <= w'.agents[a].ops
    ensures HonestBundle(h, c, w', b)
  {
    hide Segment;
    SegmentOfLonger(h, b, w.agents[b.agent].ops, w'.agents[b.agent].ops);
  }

  lemma RecordKeepsInv(h: LinkHash, c: Crypto, w: World, a: AgentId, op: Op)
    requires Inv(h, c, w) && a in w.agents
    ensures var w' := w.(agents := w.agents[a := w.agents[a].(ops := w.agents[a].ops + [op])]); Inv(h, c, w')
  {
    hide Segment, Linked, HonestBundle;
    var w' := w.(agents := w.agents[a := w.agents[a].(ops := w.agents[a].ops + [op])]);
    forall b | b in w'.sent
      ensures HonestBundle(h, c, w', b)
    {
      HonestBundleOfLonger(h, c, w, w', b);
    }
    forall r | r in w'.agents
      ensures HonestView(h, c, w', r)
    {
      assert HonestView(h, c, w, r);
    }
  }

  lemma ExportKeepsInv(h: LinkHash, c: Crypto, w: World, a: AgentId, since: nat)
    requires SignaturesVerify(c) && Inv(h, c, w) && a in w.agents && since <= |w.agents[a].ops|
    ensures var e := ExportOf(h, c, a, w.agents[a].ops, since);
            && e.Accepted? && e.value.agent == a && e.value.firstSeq == since
            && |e.value.ops| == |w.agents[a].ops| - since
            && Inv(h, c, w.(sent := w.sent + {e.value}))
  {
    hide Segment, Linked, ChainOver, SignaturesVerify;
    var plain := Export(a, GENESIS, 0, w.agents[a].ops, ChainOver(h, GENESIS, 0, w.agents[a].ops), since).value;
    ExportIsSegment(h, a, w.agents[a].ops, since);
    var e := ExportOf(h, c, a, w.agents[a].ops, since);
    SignedIsHonest(h, c, w, plain);
    var w' := w.(sent := w.sent + {e.value});
    forall r | r in w'.agents
      ensures HonestView(h, c, w', r)
    {
      assert HonestView(h, c, w, r);
    }
    forall b | b in w'.sent
      ensures HonestBundle(h, c, w', b)
    {
      if b != e.value { assert HonestBundle(h, c, w, b); }
    }
  }

  lemma SignedIsHonest(h: LinkHash, c: Crypto, w: World, b: SyncBundle)
    requires SignaturesVerify(c) && b.agent in w.agents && Segment(h, b, w.agents[b.agent].ops)
    requires b.pubkey == None && b.sig == None
    ensures HonestBundle(h, c, w, Signed(c, b))
  {
    hide ChainOver;
  }

  /** A delivery touches one agent's foreign logs and pins; everything honest stays so. */
  lemma HonestElsewhere(h: LinkHash, c: Crypto, w: World, w': World, r: AgentId)
    requires Inv(h, c, w) && r in w.agents && w'.sent == w.sent && w'.agents.Keys == w.agents.Keys
    requires forall a :: a in w.agents ==> w'.agents[a].ops == w.agents[a].ops
    requires forall a :: a in w.agents && a != r ==> w'.agents[a] == w.agents[a]
    requires HonestView(h, c, w', r)
    ensures Inv(h, c, w')
  {
    hide Segment, ValidForeign;
    forall x | x in w'.sent
      ensures HonestBundle(h, c, w', x)
    {
      assert HonestBundle(h, c, w, x);
    }
    forall q | q in w'.agents
      ensures HonestView(h, c, w', q)
    {
      assert HonestView(h, c, w, q);
    }
  }

  lemma ViewAfter(h: LinkHash, c: Crypto, w: World, w': World, r: AgentId, b: SyncBundle, foreign: Foreign, pins: Pins)
    requires r in w.agents && HonestView(h, c, w, r) && b.agent in w.agents
    requires w'.agents == w.agents[r := w.agents[r].(foreign := foreign, pins := pins)]
    requires ValidForeign(h, foreign) && r !in foreign
    requires forall x :: x in foreign && x != b.agent ==> x in w.agents[r].foreign && foreign[x] == w.agents[r].foreign[x]
    requires b.agent in foreign ==> foreign[b.agent].ops <= w.agents[b.agent].ops
    requires forall x :: x in pins ==> KeyOf(c, x) == Some(pins[x])
    ensures HonestView(h, c, w', r)
  {
    hide ValidForeign;
  }

  lemma DeliveredView(h: LinkHash, c: Crypto, w: World, r: AgentId, b: SyncBundle)
    requires Inv(h, c, w) && r in w.agents && b in w.sent && Paired(w.agents[r].foreign)
    ensures HonestView(h, c, Delivered(h, c, w, r, b), r)
  {
    assert b.agent in w.agents by { assert HonestBundle(h, c, w, b); }
    assert HonestView(h, c, w, r);
    hide Segment, ValidForeign, Import, HonestBundle, Inv, Paired;
    DeliveryKeepsPrefix(h, c, w, r, b);
    DeliveryPinsOwnKey(h, c, w, r, b);
    var d := Delivery(h, c, w, r, b);
    ImportIsSafe(h, c.check, r, w.agents[r].foreign, w.agents[r].pins, b);
    ViewAfter(h, c, w, Delivered(h, c, w, r, b), r, b, d.foreign, d.pins);
  }

  lemma DeliverKeepsInv(h: LinkHash, c: Crypto, w: World, r: AgentId, b: SyncBundle)
    requires Inv(h, c, w) && r in w.agents && b in w.sent
    ensures Paired(w.agents[r].foreign)
    ensures Inv(h, c, Delivered(h, c, w, r, b))
  {
    hide HonestView, HonestBundle, Inv, Paired, Delivery;
    InvPaired(h, c, w);
    DeliveredView(h, c, w, r, b);
    HonestElsewhere(h, c, w, Delivered(h, c, w, r, b), r);
  }

  lemma DeliveryPinsOwnKey(h: LinkHash, c: Crypto, w: World, r: AgentId, b: SyncBundle)
    requires Inv(h, c, w) && r in w.agents && b in w.sent && Paired(w.agents[r].foreign)
    ensures forall x :: x in Delivery(h, c, w, r, b).pins ==> KeyOf(c, x) == Some(Delivery(h, c, w, r, b).pins[x])
  {
    hide Segment, Linked, FirstBadLink, CheckContinuity, Extended;
    assert HonestView(h, c, w, r) && HonestBundle(h, c, w, b);
    HonestAuthenticates(h, c, w, r, b);
  }

  lemma NextKeepsInv(h: LinkHash, c: Crypto, w: World, s: Step)
    requires SignaturesVerify(c) && Inv(h, c, w) && Enabled(w, s)
    ensures forall r :: r in w.agents ==> Paired(w.agents[r].foreign)
    ensures Inv(h, c, Next(h, c, w, s))
  {
    hide Inv, ExportOf, HonestView;
    InvPaired(h, c, w);
    match s
    case RecordStep(a, op) => RecordKeepsInv(h, c, w, a, op);
    case ExportStep(a, since) => ExportKeepsInv(h, c, w, a, since);
    case DeliverStep(r, b) => DeliverKeepsInv(h, c, w, r, b);
  }

  // ---------------------------------------------------------------- runs

  /** `states` is a run of the federation under `steps`. */
  ghost predicate Run(h: LinkHash, c: Crypto, states: seq<World>, steps: seq<Step>) {
    && |states| == |steps| + 1
    && Initial(states[0])
    && forall i :: 0 <= i < |steps| ==>
         && Enabled(states[i], steps[i])
         && (forall r :: r in states[i].agents ==> Paired(states[i].agents[r].foreign))
         && states[i + 1] == Next(h, c, states[i], steps[i])
  }

  /** Safety over every run: at every point each copy of a log is a prefix of that log. */
  lemma {:induction false} RunKeepsInv(h: LinkHash, c: Crypto, states: seq<World>, steps: seq<Step>, n: nat)
    requires SignaturesVerify(c) && Run(h, c, states, steps) && n <= |steps|
    ensures Inv(h, c, states[n])
    decreases n
  {
    hide Next, Enabled, HonestView, HonestBundle;
    if n > 0 {
      RunKeepsInv(h, c, states, steps, n - 1);
      NextKeepsInv(h, c, states[n - 1], steps[n - 1]);
    } else {
      InitialInv(h, c, states[0]);
    }
  }

  lemma InitialInv(h: LinkHash, c: Crypto, w: World)
    requires Initial(w)
    ensures Inv(h, c, w)
  {
    forall r | r in w.agents
      ensures HonestView(h, c, w, r)
    {
    }
  }

  /** Logs, copies of logs and pinned keys only ever grow. */
  ghost predicate AgentGrows(a: Agent, a': Agent) {
    && a.ops <= a'.ops
    && (forall x :: x in a.foreign ==> x in a'.foreign && a.foreign[x].ops <= a'.foreign[x].ops)
    && (forall x :: x in a.pins ==> x in a'.pins && a'.pins[x] == a.pins[x])
  }

  ghost predicate Grows(w: World, w': World) {
    && w.agents.Keys == w'.agents.Keys
    && w.sent <= w'.sent
    && forall a :: a in w.agents ==> AgentGrows(w.agents[a], w'.agents[a])
  }

  lemma AgentGrowsTransitive(a: Agent, b: Agent, c: Agent)
    requires AgentGrows(a, b) && AgentGrows(b, c)
    ensures AgentGrows(a, c)
  {
  }

  lemma GrowsTransitive(u: World, v: World, w: World)
    requires Grows(u, v) && Grows(v, w)
    ensures Grows(u, w)
  {
    hide AgentGrows;
    forall a | a in u.agents
      ensures AgentGrows(u.agents[a], w.agents[a])
    {
      AgentGrowsTransitive(u.agents[a], v.agents[a], w.agents[a]);
    }
  }

  lemma DeliveryGrows(h: LinkHash, c: Crypto, w: World, r: AgentId, b: SyncBundle)
    requires Inv(h, c, w) && r in w.agents && Paired(w.agents[r].foreign)
    ensures var d := Delivery(h, c, w, r, b);
            AgentGrows(w.agents[r], w.agents[r].(foreign := d.foreign, pins := d.pins))
  {
    hide ValidForeign, Segment, Import;
    assert HonestView(h, c, w, r);
    ImportIsSafe(h, c.check, r, w.agents[r].foreign, w.agents[r].pins, b);
  }

  lemma NextGrows(h: LinkHash, c: Crypto, w: World, s: Step)
    requires Inv(h, c, w) && Enabled(w, s)
    ensures forall r :: r in w.agents ==> Paired(w.agents[r].foreign)
    ensures Grows(w, Next(h, c, w, s))
  {
    hide Delivery, ExportOf, Inv, Paired;
    InvPaired(h, c, w);
    match s
    case DeliverStep(r, b) => DeliveryGrows(h, c, w, r, b);
    case _ =>
  }

  lemma {:induction false} RunGrows(h: LinkHash, c: Crypto, states: seq<World>, steps: seq<Step>, i: nat, j: nat)
    requires SignaturesVerify(c) && Run(h, c, states, steps) && i <= j <= |steps|
    ensures Grows(states[i], states[j])
    decreases j
  {
    hide Next, Enabled, Inv, Grows, SignaturesVerify;
    if i < j {
      RunGrows(h, c, states, steps, i, j - 1);
      RunKeepsInv(h, c, states, steps, j - 1);
      NextGrows(h, c, states[j - 1], steps[j - 1]);
      GrowsTransitive(states[i], states[j - 1], states[j]);
    } else {
      GrowsReflexive(states[i]);
    }
  }

  lemma GrowsReflexive(w: World)
    ensures Grows(w, w)
  {
  }

  // ---------------------------------------------------------------- convergence

  /** The streams of the merged view: the own ops, and each foreign log under its agent's id. */
  function Streams(own: AgentId, ops: seq<Op>, foreign: Foreign): map<AgentId, seq<Op>> {
    map[own := ops] + map a | a in foreign :: foreign[a].ops
  }

  /** The ops of all streams in canonical agent order. */
  function InAgentOrder(streams: map<AgentId, seq<Op>>): seq<Op> {
    Concatenated(streams, SortedKeys(streams.Keys))
  }

  function Concatenated(streams: map<AgentId, seq<Op>>, order: seq<AgentId>): seq<Op>
    requires forall a :: a in order ==> a in streams
  {
    if order == [] then []
    else Concatenated(streams, order[..|order| - 1]) + streams[order[|order| - 1]]
  }

  function StreamOf(streams: map<AgentId, seq<Op>>, a: AgentId): seq<Op> {
    if a in streams then streams[a] else []
  }

  ghost function Flattened(streams: map<AgentId, seq<Op>>, order: seq<AgentId>): seq<Op> {
    if order == [] then [] else Flattened(streams, order[..|order| - 1]) + StreamOf(streams, order[|order| - 1])
  }

  /** Members of `order` that are in `keep`, in order. */
  ghost function Kept(order: seq<AgentId>, keep: set<AgentId>): seq<AgentId> {
    if order == [] then []
    else
      var n := |order| - 1;
      Kept(order[..n], keep) + if order[n] in keep then [order[n]] else []
  }

  lemma {:induction false} ConcatenatedIsFlattened(streams: map<AgentId, seq<Op>>, order: seq<AgentId>)
    requires forall a :: a in order ==> a in streams
    ensures Concatenated(streams, order) == Flattened(streams, order)
  {
    if order != [] { ConcatenatedIsFlattened(streams, order[..|order| - 1]); }
  }

  /** Empty streams leave no trace. */
  lemma {:induction false} FlattenedKept(streams: map<AgentId, seq<Op>>, order: seq<AgentId>, keep: set<AgentId>)
    requires forall a :: a in order && a !in keep ==> StreamOf(streams, a) == []
    ensures Flattened(streams, Kept(order, keep)) == Flattened(streams, order)
  {
    hide StreamOf;
    if order != [] {
      var n := |order| - 1;
      FlattenedKept(streams, order[..n], keep);
      var front := Kept(order[..n], keep);
      if order[n] in keep {
        assert (front + [order[n]])[..|front|] == front;
      } else {
        assert front + [] == front;
      }
    }
  }

  lemma {:induction false} FlattenedSame(s: map<AgentId, seq<Op>>, t: map<AgentId, seq<Op>>, order: seq<AgentId>)
    requires forall a :: a in order ==> StreamOf(s, a) == StreamOf(t, a)
    ensures Flattened(s, order) == Flattened(t, order)
  {
    hide StreamOf;
    if order != [] { FlattenedSame(s, t, order[..|order| - 1]); }
  }

  lemma {:induction false} KeptMembers(order: seq<AgentId>, keep: set<AgentId>)
    requires AscendingKeys(order)
    ensures AscendingKeys(Kept(order, keep))
    ensures forall a :: a in Kept(order, keep) <==> a in order && a in keep
  {
    hide Less;
    if order != [] {
      var n := |order| - 1;
      KeptMembers(order[..n], keep);
      var front := Kept(order[..n], keep);
      forall i | 0 <= i < |front|
        ensures Less(front[i], order[n])
      {
        assert front[i] in order[..n];
        var j :| 0 <= j < n && order[j] == front[i];
      }
      assert order == order[..n] + [order[n]];
    }
  }

  /** Two ascending lists of the same agents are the same list. */
  lemma {:induction false} AscendingUnique(a: seq<AgentId>, b: seq<AgentId>)
    requires AscendingKeys(a) && AscendingKeys(b)
    requires forall x :: x in a <==> x in b
    ensures a == b
  {
    hide Less;
    if a != [] && b != [] {
      HeadsAgree(a, b);
      forall x
        ensures x in a[1..] <==> x in b[1..]
      {
        TailOf(a, x);
        TailOf(b, x);
      }
      AscendingUnique(a[1..], b[1..]);
      assert a == [a[0]] + a[1..] && b == [b[0]] + b[1..];
    } else if a != [] {
      FirstIsMember(a);
    } else if b != [] {
      FirstIsMember(b);
    }
  }

  lemma FirstIsMember(a: seq<AgentId>)
    requires a != []
    ensures a[0] in a
  {
  }

  lemma HeadsAgree(a: seq<AgentId>, b: seq<AgentId>)
    requires AscendingKeys(a) && AscendingKeys(b) && a != [] && b != []
    requires forall x :: x in a <==> x in b
    ensures a[0] == b[0]
  {
    hide Less;
    FirstIsMember(a);
    FirstIsMember(b);
    var i :| 0 <= i < |b| && b[i] == a[0];
    var j :| 0 <= j < |a| && a[j] == b[0];
    if i > 0 && j > 0 {
      LessAsymmetric(a[0], b[0]);
    }
  }

  lemma TailOf(a: seq<AgentId>, x: AgentId)
    requires AscendingKeys(a) && a != []
    ensures x in a[1..] <==> x in a && x != a[0]
  {
    hide Less;
    LessIrreflexive(a[0]);
    if x in a && x != a[0] {
      var i :| 0 <= i < |a| && a[i] == x;
      assert a[1..][i - 1] == x;
    }
    if x in a[1..] {
      var i :| 0 <= i < |a| - 1 && a[1..][i] == x;
      assert a[i + 1] == x;
    }
  }

  /** Stream sets that differ only in empty streams merge to the same ops. */
  lemma SameStreamsMergeAlike(s: map<AgentId, seq<Op>>, t: map<AgentId, seq<Op>>)
    requires forall a :: StreamOf(s, a) == StreamOf(t, a)
    ensures InAgentOrder(s) == InAgentOrder(t)
  {
    hide Less, SortedKeys;
    var a, b := SortedKeys(s.Keys), SortedKeys(t.Keys);
    var both := s.Keys * t.Keys;
    ConcatenatedIsFlattened(s, a);
    ConcatenatedIsFlattened(t, b);
    FlattenedKept(s, a, both);
    FlattenedKept(t, b, both);
    KeptMembers(a, both);
    KeptMembers(b, both);
    AscendingUnique(Kept(a, both), Kept(b, both));
    FlattenedSame(s, t, Kept(a, both));
  }

  /** The session holds every other agent's whole log. */
  ghost predicate CaughtUp(w: World, r: AgentId)
    requires r in w.agents
  {
    forall x :: x in w.agents && x != r ==> Known(w.agents[r].foreign, x).ops == w.agents[x].ops
  }

  /** The shared memory a session materializes. */
  function MergedView<B, F, E>(k: Kernel<B, F, E>, own: AgentId, ops: seq<Op>, foreign: Foreign): Memory<B, F, E> {
    Replayed(k, Empty(k), InAgentOrder(Streams(own, ops, foreign)))
  }

  lemma CaughtUpStreams(h: LinkHash, c: Crypto, w: World, r: AgentId, x: AgentId)
    requires Inv(h, c, w) && r in w.agents && CaughtUp(w, r)
    ensures StreamOf(Streams(r, w.agents[r].ops, w.agents[r].foreign), x) ==
            if x in w.agents then w.agents[x].ops else []
  {
    hide Linked;
    assert HonestView(h, c, w, r);
  }

  /** Convergence: after any run, sessions that have caught up materialize the same memory. */
  lemma CaughtUpSessionsConverge<B, F, E>(h: LinkHash, c: Crypto, states: seq<World>, steps: seq<Step>, n: nat,
                                       k: Kernel<B, F, E>, a: AgentId, b: AgentId)
    requires SignaturesVerify(c) && Run(h, c, states, steps) && n <= |steps|
    requires a in states[n].agents && b in states[n].agents && CaughtUp(states[n], a) && CaughtUp(states[n], b)
    ensures MergedView(k, a, states[n].agents[a].ops, states[n].agents[a].foreign)
            == MergedView(k, b, states[n].agents[b].ops, states[n].agents[b].foreign)
  {
    var w := states[n];
    hide Inv, Run, CaughtUp, Streams, StreamOf, InAgentOrder, Replayed;
    RunKeepsInv(h, c, states, steps, n);
    var s, t := Streams(a, w.agents[a].ops, w.agents[a].foreign), Streams(b, w.agents[b].ops, w.agents[b].foreign);
    forall x
      ensures StreamOf(s, x) == StreamOf(t, x)
    {
      CaughtUpStreams(h, c, w, a, x);
      CaughtUpStreams(h, c, w, b, x);
    }
    SameStreamsMergeAlike(s, t);
  }

  /** One export from genesis, delivered once, catches the receiver up on that agent. */
  lemma FullExportCatchesUp(h: LinkHash, c: Crypto, w: World, x: AgentId, r: AgentId)
    requires SignaturesVerify(c) && Inv(h, c, w)
    requires x in w.agents && r in w.agents && x != r
    ensures var e := ExportOf(h, c, x, w.agents[x].ops, 0);
            && e.Accepted?
            && var w' := w.(sent := w.sent + {e.value});
            && Paired(w'.agents[r].foreign)
            && Known(Delivery(h, c, w', r, e.value).foreign, x).ops == w.agents[x].ops
  {
    hide ExportOf, HonestView, HonestBundle, Import;
    ExportKeepsInv(h, c, w, x, 0);
    var b := ExportOf(h, c, x, w.agents[x].ops, 0).value;
    var w' := w.(sent := w.sent + {b});
    InvPaired(h, c, w');
    HonestVerdict(h, c, w', r, b);
    DeliveryKeepsPrefix(h, c, w', r, b);
  }

  /** The own stream survives into the merged view if and only if no other foreign log sits under the own id. */
  lemma OwnStreamKept(own: AgentId, ops: seq<Op>, foreign: Foreign)
    ensures StreamOf(Streams(own, ops, foreign), own) == ops <==> (own in foreign ==> foreign[own].ops == ops)
  {
  }
}
