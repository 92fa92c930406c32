/** When a session's own stream reaches its merged view: the id it goes by against the bundles it accepted. */
module OwnStreams {
  import opened Results
  import opened Keys
  import opened Layers
  import opened Replay
  import opened HashChain
  import opened Sync
  import opened Federation

  const LOCAL: AgentId := [0x6C, 0x6F, 0x63, 0x61, 0x6C] // "local"

  datatype Session = Session(agent: AgentId, ops: seq<Op>, foreign: Foreign, pins: Pins)

  const FRESH: Session := Session([], [], map[], map[])

  datatype Event =
    | Recorded(op: Op)
    | Named(id: AgentId)
    | Received(bundle: SyncBundle)

  /** The id the own stream has in the merged view. */
  function StreamId(agent: AgentId): AgentId {
    if agent == [] then LOCAL else agent
  }

  function Receipt(h: LinkHash, check: SigCheck, s: Session, b: SyncBundle): Imported
    requires Paired(s.foreign)
  {
    Import(h, check, s.agent, s.foreign, s.pins, b)
  }

  lemma ImportKeepsPaired(h: LinkHash, check: SigCheck, s: Session, b: SyncBundle)
    requires Paired(s.foreign)
    ensures Paired(Receipt(h, check, s, b).foreign)
  {
    hide FirstBadLink, FirstConflict, Authenticate;
  }

  function After(h: LinkHash, check: SigCheck, events: seq<Event>): (s: Session)
    ensures Paired(s.foreign)
  {
    if events == [] then FRESH
    else
      var s := After(h, check, events[..|events| - 1]);
      match events[|events| - 1]
      case Recorded(op) => s.(ops := s.ops + [op])
      case Named(id) => s.(agent := id)
      case Received(b) =>
        ImportKeepsPaired(h, check, s, b);
        var r := Receipt(h, check, s, b);
        s.(foreign := r.foreign, pins := r.pins)
  }

  /** Event `i` is an accepted bundle of `id`. */
  ghost predicate AcceptedAt(h: LinkHash, check: SigCheck, events: seq<Event>, i: nat, id: AgentId)
    requires i < |events|
  {
    && events[i].Received? && events[i].bundle.agent == id
    && Receipt(h, check, After(h, check, events[..i]), events[i].bundle).outcome.Accepted?
  }

  ghost predicate Carried(h: LinkHash, check: SigCheck, events: seq<Event>, id: AgentId) {
    exists i :: 0 <= i < |events| && AcceptedAt(h, check, events, i, id)
  }

  lemma CarriedSnoc(h: LinkHash, check: SigCheck, events: seq<Event>, e: Event, id: AgentId)
    ensures Carried(h, check, events + [e], id) <==> Carried(h, check, events, id) || AcceptedAt(h, check, events + [e], |events|, id)
  {
    hide Receipt, After;
    var all := events + [e];
    forall i | 0 <= i < |events|
      ensures AcceptedAt(h, check, events, i, id) <==> AcceptedAt(h, check, all, i, id)
    {
      assert all[..i] == events[..i] && all[i] == events[i];
    }
    if Carried(h, check, events, id) {
      var i :| 0 <= i < |events| && AcceptedAt(h, check, events, i, id);
      assert AcceptedAt(h, check, all, i, id);
    }
  }

  lemma ReceiptAdds(h: LinkHash, check: SigCheck, s: Session, b: SyncBundle, id: AgentId)
    requires Paired(s.foreign)
    ensures id in Receipt(h, check, s, b).foreign <==> id in s.foreign || (Receipt(h, check, s, b).outcome.Accepted? && b.agent == id)
  {
    hide Admit, Extended;
  }

  /** A foreign log sits under an id if and only if a bundle of that id was accepted. */
  lemma {:induction false} ForeignExactly(h: LinkHash, check: SigCheck, events: seq<Event>, id: AgentId)
    ensures id in After(h, check, events).foreign <==> Carried(h, check, events, id)
  {
    hide Receipt, AcceptedAt, Paired;
    if events != [] {
      var n := |events| - 1;
      var e := events[n];
      ForeignExactly(h, check, events[..n], id);
      CarriedSnoc(h, check, events[..n], e, id);
      assert events == events[..n] + [e];
      var s := After(h, check, events[..n]);
      LastAccepted(h, check, events, id);
      if e.Received? { ReceiptAdds(h, check, s, e.bundle, id); }
    }
  }

  lemma LastAccepted(h: LinkHash, check: SigCheck, events: seq<Event>, id: AgentId)
    requires events != []
    ensures var n := |events| - 1;
            AcceptedAt(h, check, events, n, id) <==>
              && events[n].Received? && events[n].bundle.agent == id
              && Receipt(h, check, After(h, check, events[..n]), events[n].bundle).outcome.Accepted?
  {
  }

  /**
   * Over every history of a session: its own stream survives into the merged view if and only if
   * it accepted no bundle under the id it now goes by, or that log is the same as its own.
   */
  lemma OwnStreamSurvivesExactly(h: LinkHash, check: SigCheck, events: seq<Event>)
    ensures var s := After(h, check, events);
            var id := StreamId(s.agent);
            StreamOf(Streams(id, s.ops, s.foreign), id) == s.ops <==>
              (Carried(h, check, events, id) ==> id in s.foreign && s.foreign[id].ops == s.ops)
  {
    hide After, Carried, Streams, StreamOf;
    var s := After(h, check, events);
    var id := StreamId(s.agent);
    ForeignExactly(h, check, events, id);
    OwnStreamKept(id, s.ops, s.foreign);
  }

  /** A session named before anything else, and only once, never accepts its own id: its stream survives. */
  lemma {:induction false} NamedFirstKeepsItsStream(h: LinkHash, check: SigCheck, id: AgentId, rest: seq<Event>)
    requires id != [] && forall i :: 0 <= i < |rest| ==> !rest[i].Named?
    ensures var s := After(h, check, [Named(id)] + rest);
            && s.agent == id && !Carried(h, check, [Named(id)] + rest, id)
            && StreamOf(Streams(id, s.ops, s.foreign), id) == s.ops
  {
    hide Receipt, Streams, StreamOf, Paired;
    NamedStays(h, check, id, rest);
    var s := After(h, check, [Named(id)] + rest);
    ForeignExactly(h, check, [Named(id)] + rest, id);
    OwnStreamKept(id, s.ops, s.foreign);
  }

  lemma {:induction false} NamedStays(h: LinkHash, check: SigCheck, id: AgentId, rest: seq<Event>)
    requires id != [] && forall i :: 0 <= i < |rest| ==> !rest[i].Named?
    ensures After(h, check, [Named(id)] + rest).agent == id && id !in After(h, check, [Named(id)] + rest).foreign
    decreases |rest|
  {
    hide Receipt, Paired;
    var events := [Named(id)] + rest;
    if rest == [] {
      assert events[..0] == [];
    } else {
      var n := |rest| - 1;
      assert events[..|events| - 1] == [Named(id)] + rest[..n] && events[|events| - 1] == rest[n];
      NamedStays(h, check, id, rest[..n]);
      if rest[n].Received? { OwnIdIsRefused(h, check, After(h, check, [Named(id)] + rest[..n]), rest[n].bundle); }
    }
  }

  lemma OwnIdIsRefused(h: LinkHash, check: SigCheck, s: Session, b: SyncBundle)
    requires Paired(s.foreign) && s.agent !in s.foreign
    ensures s.agent !in Receipt(h, check, s, b).foreign
  {
    hide FirstBadLink, CheckContinuity, Authenticate, Extended;
  }

  // ---------------------------------------------------------------- the two ways of losing it

  /** Another agent's first op, exported whole and unsigned. */
  function FirstBundle(h: LinkHash, id: AgentId, op: Op): SyncBundle {
    SyncBundle(1, id, 0, GENESIS, [op], [h(GENESIS, 0, op)], None, None)
  }

  lemma FirstBundleIsAccepted(h: LinkHash, check: SigCheck, s: Session, id: AgentId, op: Op)
    requires Paired(s.foreign) && id !in s.foreign && id !in s.pins && id != [] && id != s.agent
    ensures var r := Receipt(h, check, s, FirstBundle(h, id, op));
            r.outcome.Accepted? && id in r.foreign && r.foreign[id].ops == [op]
  {
    var b := FirstBundle(h, id, op);
    assert LinkHolds(h, b.anchor, b.firstSeq, b.ops, b.chain, 0);
    assert FirstBadLink(h, b, 0) == None;
    assert FirstBadLink(h, b, 1) == None;
  }

  lemma OneStream(id: AgentId, ops: seq<Op>, foreign: Foreign)
    requires foreign.Keys == {id}
    ensures InAgentOrder(Streams(id, ops, foreign)) == foreign[id].ops
  {
    hide SortedKeys, AscendingKeys, Less;
    var streams := Streams(id, ops, foreign);
    assert streams.Keys == {id};
    OneKey(id);
    OneConcatenated(streams, id);
    assert streams[id] == foreign[id].ops;
  }

  lemma OneKey(id: AgentId)
    ensures SortedKeys({id}) == [id]
  {
    hide SortedKeys, AscendingKeys, Less;
    var order := SortedKeys({id});
    assert |order| == 1 && order[0] in order;
  }

  lemma OneConcatenated(streams: map<AgentId, seq<Op>>, id: AgentId)
    requires id in streams
    ensures Concatenated(streams, [id]) == streams[id]
  {
    assert [id][..0] == [] && [id][1..] == [];
    assert streams[id] + [] == streams[id];
  }

  lemma AfterTwo(h: LinkHash, check: SigCheck, mine: Op, b: SyncBundle)
    ensures var s := FRESH.(ops := [mine]);
            Paired(s.foreign) && After(h, check, [Recorded(mine), Received(b)]) == s.(foreign := Receipt(h, check, s, b).foreign, pins := Receipt(h, check, s, b).pins)
  {
    hide Receipt;
    var events := [Recorded(mine), Received(b)];
    assert events[..1] == [Recorded(mine)] && [Recorded(mine)][..0] == [];
    assert After(h, check, [Recorded(mine)]) == FRESH.(ops := [mine]);
  }

  /** An unnamed session accepts a bundle of an agent called "local", and its merged view replays that agent's op in place of its own. */
  lemma LocalBundleReplacesOwnStream<B, F, E>(h: LinkHash, check: SigCheck, k: Kernel<B, F, E>, mine: Op, theirs: Op)
    ensures var s := After(h, check, [Recorded(mine), Received(FirstBundle(h, LOCAL, theirs))]);
            && s.agent == [] && s.ops == [mine]
            && MergedView(k, StreamId(s.agent), s.ops, s.foreign) == Replayed(k, Empty(k), [theirs])
  {
    hide Receipt, Replayed, After, InAgentOrder, Streams;
    var b := FirstBundle(h, LOCAL, theirs);
    AfterTwo(h, check, mine, b);
    TheirLogAlone(h, check, mine, LOCAL, theirs);
    OneStream(LOCAL, [mine], Receipt(h, check, FRESH.(ops := [mine]), b).foreign);
  }

  lemma TheirLogAlone(h: LinkHash, check: SigCheck, mine: Op, id: AgentId, theirs: Op)
    requires id != []
    ensures var s := FRESH.(ops := [mine]);
            var r := Receipt(h, check, s, FirstBundle(h, id, theirs));
            Paired(s.foreign) && r.foreign.Keys == {id} && r.foreign[id].ops == [theirs]
  {
    var s := FRESH.(ops := [mine]);
    var b := FirstBundle(h, id, theirs);
    FirstBundleIsAccepted(h, check, s, id, theirs);
    forall x
      ensures x in Receipt(h, check, s, b).foreign <==> x == id
    {
      ReceiptAdds(h, check, s, b, x);
    }
    hide Receipt;
  }

  /** A session that takes a name it has already imported under loses its own stream the same way. */
  lemma NamingAfterImportReplacesOwnStream<B, F, E>(h: LinkHash, check: SigCheck, k: Kernel<B, F, E>, id: AgentId, mine: Op, theirs: Op)
    requires id != []
    ensures var s := After(h, check, [Recorded(mine), Received(FirstBundle(h, id, theirs)), Named(id)]);
            && s.agent == id && s.ops == [mine]
            && MergedView(k, StreamId(s.agent), s.ops, s.foreign) == Replayed(k, Empty(k), [theirs])
  {
    hide Receipt, Replayed, InAgentOrder, Streams;
    var b := FirstBundle(h, id, theirs);
    var events := [Recorded(mine), Received(b), Named(id)];
    assert events[..2] == [Recorded(mine), Received(b)];
    AfterTwo(h, check, mine, b);
    TheirLogAlone(h, check, mine, id, theirs);
    OneStream(id, [mine], Receipt(h, check, FRESH.(ops := [mine]), b).foreign);
  }
}
