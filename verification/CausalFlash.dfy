/** The traversal itself: index building, seed scans and the cone with its loops, against the window functions. */
module CausalFlash {
  import opened Results
  import opened Keys
  import opened Layers
  import opened Sorting
  import opened CausalCone
  import opened CausalWindow

  /** One pass over the edges, then every list sorted by id. */
  method CausalAdjacency(g: Graph) returns (adj: Adjacency)
    ensures Indexes(adj, g)
  {
    hide IsDependency, SortBy;
    var fwd: map<Id, seq<Hop>>, rev: map<Id, seq<Id>> := map[], map[];
    var i := 0;
    while i < |g.edges|
      invariant 0 <= i <= |g.edges|
      invariant forall a :: Kids(Adjacency(fwd, rev), a) == HopsFrom(g.edges[..i], a)
      invariant forall b :: Callers(Adjacency(fwd, rev), b) == SourcesTo(g.edges[..i], b)
      invariant forall a :: a in fwd ==> fwd[a] != []
    {
      var e := g.edges[i];
      assert g.edges[..i + 1][..i] == g.edges[..i];
      ghost var before := Adjacency(fwd, rev);
      if IsDependency(e.kind) {
        fwd := fwd[e.source := Kids(Adjacency(fwd, rev), e.source) + [Hop(e.target, e.weight)]];
        rev := rev[e.target := Callers(Adjacency(fwd, rev), e.target) + [e.source]];
      }
      forall a
        ensures Kids(Adjacency(fwd, rev), a) == HopsFrom(g.edges[..i + 1], a)
      {
        assert Kids(before, a) == HopsFrom(g.edges[..i], a);
        assert Kids(before, a) + [] == Kids(before, a);
      }
      forall b
        ensures Callers(Adjacency(fwd, rev), b) == SourcesTo(g.edges[..i + 1], b)
      {
        assert Callers(before, b) == SourcesTo(g.edges[..i], b);
        assert Callers(before, b) + [] == Callers(before, b);
      }
      i := i + 1;
    }
    assert g.edges[..i] == g.edges;
    adj := Adjacency(map a | a in fwd :: SortBy(HopLeq, fwd[a]), map b | b in rev :: SortBy(Leq, rev[b]));
    SortEmpty();
    forall a
      ensures Kids(adj, a) == SortBy(HopLeq, HopsFrom(g.edges, a))
    {
      assert Kids(Adjacency(fwd, rev), a) == HopsFrom(g.edges, a);
    }
    forall b
      ensures Callers(adj, b) == SortBy(Leq, SourcesTo(g.edges, b))
    {
      assert Callers(Adjacency(fwd, rev), b) == SourcesTo(g.edges, b);
    }
  }

  lemma SortEmpty()
    ensures SortBy(HopLeq, []) == [] && SortBy(Leq, []) == []
  {
  }

  // ---------------------------------------------------------------- seeds

  predicate IsSeed(cfg: Config, n: Node) {
    !n.state.Orphan? && (n.state.Working? || (cfg.includeLowTrustSeeds && n.trust < cfg.trustThreshold))
  }

  /** The window rooted at the working set, and at low-trust nodes when asked. */
  method CausalFlashWindow(nodes: map<Id, Node>, adj: Adjacency, cfg: Config) returns (w: Window)
    ensures w == Flash(View(nodes, adj, set id | id in nodes && IsSeed(cfg, nodes[id])), cfg)
  {
    hide Flash, AscendingKeys, SortedKeys;
    var ids := SortedKeys(nodes.Keys);
    var seeds: set<Id> := {};
    var i := 0;
    while i < |ids|
      invariant 0 <= i <= |ids|
      invariant forall id :: id in seeds <==> id in ids[..i] && IsSeed(cfg, nodes[id])
    {
      assert ids[i] in nodes.Keys;
      assert ids[..i + 1] == ids[..i] + [ids[i]];
      if IsSeed(cfg, nodes[ids[i]]) { seeds := seeds + {ids[i]}; }
      i := i + 1;
    }
    assert ids[..i] == ids;
    assert seeds == set id | id in nodes && IsSeed(cfg, nodes[id]);
    w := ConeCore(View(nodes, adj, seeds), cfg);
  }

  /** The window rooted at given ids; those that are absent or orphans are dropped. */
  method CausalFlashWindowWith(nodes: map<Id, Node>, adj: Adjacency, cfg: Config, seedIds: seq<Id>) returns (w: Window)
    ensures w == Flash(View(nodes, adj, set id | id in seedIds && id in nodes && !nodes[id].state.Orphan?), cfg)
  {
    hide Flash;
    var seeds: set<Id> := {};
    var i := 0;
    while i < |seedIds|
      invariant 0 <= i <= |seedIds|
      invariant forall id :: id in seeds <==> id in seedIds[..i] && id in nodes && !nodes[id].state.Orphan?
    {
      assert seedIds[..i + 1] == seedIds[..i] + [seedIds[i]];
      if seedIds[i] in nodes && !nodes[seedIds[i]].state.Orphan? { seeds := seeds + {seedIds[i]}; }
      i := i + 1;
    }
    assert seedIds[..i] == seedIds;
    assert seeds == set id | id in seedIds && id in nodes && !nodes[id].state.Orphan?;
    w := ConeCore(View(nodes, adj, seeds), cfg);
  }

  // ---------------------------------------------------------------- the cone

  /** One frontier node: every dependency gains mass, the new ones a depth. */
  method VisitParent(v: View, gain: real, d: nat, hops: seq<Hop>, depth0: map<Id, nat>, relevance0: map<Id, real>, next0: set<Id>)
      returns (depth: map<Id, nat>, relevance: map<Id, real>, next: set<Id>)
    ensures Cone(depth, relevance, next) == Visit(v, gain, d, hops, Cone(depth0, relevance0, next0))
  {
    hide Mass, IsOrphan;
    depth, relevance, next := depth0, relevance0, next0;
    var j := 0;
    while j < |hops|
      invariant 0 <= j <= |hops|
      invariant Cone(depth, relevance, next) == Visit(v, gain, d, hops[..j], Cone(depth0, relevance0, next0))
    {
      var child := hops[j].id;
      assert hops[..j + 1][..j] == hops[..j];
      if !IsOrphan(v, child) {
        relevance := relevance[child := Mass(Cone(depth, relevance, next), gain, hops[j])];
        if child !in depth {
          depth := depth[child := d];
          next := next + {child};
        }
      }
      j := j + 1;
    }
    assert hops[..j] == hops;
  }

  /** The layers up to the horizon, stopping early at an empty frontier. */
  method SearchLayers(v: View, decay: real, horizon: nat) returns (c: Cone)
    ensures c == Layered(v, decay, horizon)
  {
    hide Visit, Gain, SortedKeys, AscendingKeys, Layered, Kids;
    var depth, relevance: map<Id, real> := map s | s in v.seeds :: 0, map s | s in v.seeds :: 1.0;
    var frontier := v.seeds;
    LayeredZero(v, decay);
    var d := 0;
    while d < horizon
      invariant 0 <= d <= horizon
      invariant Cone(depth, relevance, frontier) == Layered(v, decay, d)
    {
      var parents := SortedKeys(frontier);
      var next: set<Id> := {};
      ghost var start := Cone(depth, relevance, {});
      var i := 0;
      while i < |parents|
        invariant 0 <= i <= |parents|
        invariant Cone(depth, relevance, next) == Spread(v, decay, d + 1, parents[..i], start)
      {
        var gain := Gain(Cone(depth, relevance, next), parents[i], decay);
        assert parents[..i + 1][..i] == parents[..i];
        depth, relevance, next := VisitParent(v, gain, d + 1, Kids(v.adj, parents[i]), depth, relevance, next);
        i := i + 1;
      }
      assert parents[..i] == parents;
      LayeredNext(v, decay, d);
      frontier := next;
      d := d + 1;
      if frontier == {} {
        EmptyFrontierStays(v, decay, d, horizon);
        return Cone(depth, relevance, frontier);
      }
    }
    return Cone(depth, relevance, frontier);
  }

  lemma LayeredZero(v: View, decay: real)
    ensures Layered(v, decay, 0) == Cone(map s | s in v.seeds :: 0, map s | s in v.seeds :: 1.0, v.seeds)
  {
  }

  /** What the last frontier still leads to. */
  method CutDeps(v: View, c: Cone) returns (cut: set<Id>)
    ensures cut == BeyondFrontier(v, c)
  {
    hide SortedKeys, AscendingKeys, BeyondFrontier, HopsTo, Kids;
    var frontier := SortedKeys(c.next);
    cut := {};
    var i := 0;
    while i < |frontier|
      invariant 0 <= i <= |frontier|
      invariant forall id :: id in cut <==> id !in c.depth && exists p :: p in frontier[..i] && Leads(v, p, id)
    {
      ghost var before := cut;
      var hops := Kids(v.adj, frontier[i]);
      cut := CutFrom(v, c, hops, cut);
      assert frontier[..i + 1] == frontier[..i] + [frontier[i]];
      forall id
        ensures id in cut <==> id !in c.depth && exists p :: p in frontier[..i + 1] && Leads(v, p, id)
      {
        assert Leads(v, frontier[i], id) <==> HopsTo(v, hops, id);
        assert frontier[i] in frontier[..i + 1];
      }
      i := i + 1;
    }
    assert frontier[..i] == frontier;
    forall id
      ensures id in cut <==> id in BeyondFrontier(v, c)
    {
      BeyondMeans(v, c, id);
    }
  }

  method CutFrom(v: View, c: Cone, hops: seq<Hop>, cut0: set<Id>) returns (cut: set<Id>)
    ensures forall id :: id in cut <==> id in cut0 || (id !in c.depth && HopsTo(v, hops, id))
  {
    hide IsOrphan;
    cut := cut0;
    var j := 0;
    while j < |hops|
      invariant 0 <= j <= |hops|
      invariant forall id :: id in cut <==> id in cut0 || (id !in c.depth && HopsTo(v, hops[..j], id))
    {
      assert hops[..j + 1] == hops[..j] + [hops[j]];
      assert hops[j] in hops[..j + 1];
      if !IsOrphan(v, hops[j].id) && hops[j].id !in c.depth { cut := cut + {hops[j].id}; }
      j := j + 1;
    }
    assert hops[..j] == hops;
  }

  // ---------------------------------------------------------------- assembly

  /** Seeds and dependencies that are resident, in id order. */
  method AssembleCone(v: View, c: Cone, ids: seq<Id>) returns (out: seq<Entry>)
    ensures out == ConeEntries(v, c, ids)
  {
    hide ConeEntry;
    out := [];
    var i := 0;
    while i < |ids|
      invariant 0 <= i <= |ids|
      invariant out == ConeEntries(v, c, ids[..i])
    {
      assert ids[..i + 1][..i] == ids[..i];
      if ids[i] in v.nodes { out := out + [ConeEntry(v, c, ids[i])]; }
      i := i + 1;
    }
    assert ids[..i] == ids;
  }

  /** One hop of callers around the cone, each once. */
  method AssembleRing(v: View, decay: real, c: Cone, ids: seq<Id>) returns (ring: seq<Entry>)
    ensures ring == Ring(v, decay, c, ids)
  {
    hide InRing, Eligible, CallerEntry, RingVisit, Callers;
    ring := [];
    var callerAdded: set<Id> := {};
    NothingInRing();
    var i := 0;
    while i < |ids|
      invariant 0 <= i <= |ids|
      invariant ring == Ring(v, decay, c, ids[..i])
      invariant forall id :: id in callerAdded <==> InRing(ring, id)
    {
      assert ids[..i + 1][..i] == ids[..i];
      ring, callerAdded := AddCallers(v, decay, c, ids[i], Callers(v.adj, ids[i]), ring, callerAdded);
      i := i + 1;
    }
    assert ids[..i] == ids;
  }

  lemma NothingInRing()
    ensures forall id :: !InRing([], id)
  {
  }

  method AddCallers(v: View, decay: real, c: Cone, cone: Id, callers: seq<Id>, ring0: seq<Entry>, added0: set<Id>)
      returns (ring: seq<Entry>, callerAdded: set<Id>)
    requires forall id :: id in added0 <==> InRing(ring0, id)
    ensures ring == RingVisit(v, decay, c, cone, callers, ring0)
    ensures forall id :: id in callerAdded <==> InRing(ring, id)
  {
    hide InRing, IsOrphan, CallerEntry;
    ring, callerAdded := ring0, added0;
    var j := 0;
    while j < |callers|
      invariant 0 <= j <= |callers|
      invariant ring == RingVisit(v, decay, c, cone, callers[..j], ring0)
      invariant forall id :: id in callerAdded <==> InRing(ring, id)
    {
      var caller := callers[j];
      assert callers[..j + 1][..j] == callers[..j];
      if caller !in c.depth && caller !in callerAdded && caller in v.nodes && !IsOrphan(v, caller) {
        InRingAppend(v, decay, c, cone, caller, ring);
        callerAdded := callerAdded + {caller};
        ring := ring + [CallerEntry(v, decay, c, cone, caller)];
      }
      j := j + 1;
    }
    assert callers[..j] == callers;
  }

  lemma InRingAppend(v: View, decay: real, c: Cone, cone: Id, caller: Id, ring: seq<Entry>)
    requires caller in v.nodes
    ensures forall id :: InRing(ring + [CallerEntry(v, decay, c, cone, caller)], id) <==> InRing(ring, id) || id == caller
  {
    var e := CallerEntry(v, decay, c, cone, caller);
    assert forall f :: f in ring + [e] <==> f in ring || f == e;
  }

  // ---------------------------------------------------------------- the budget and the whole

  /** Drops the lightest callers over the cap. */
  method Trim(out: seq<Entry>, cap: Option<nat>) returns (kept: seq<Entry>, dropped: nat)
    requires Distinct(out)
    ensures kept == Trimmed(out, cap) && dropped == |Surplus(out, cap)|
  {
    hide DropsBefore, CallersOf, Distinct;
    SurplusExactly(out, cap);
    var drop := Surplus(out, cap);
    var gone := Elements(drop);
    kept := [];
    var i := 0;
    while i < |out|
      invariant 0 <= i <= |out|
      invariant kept == Without(out[..i], gone)
    {
      assert out[..i + 1][..i] == out[..i];
      if out[i] !in gone { kept := kept + [out[i]]; }
      i := i + 1;
    }
    assert out[..i] == out;
    dropped := |drop|;
  }

  method ConeCore(v: View, cfg: Config) returns (w: Window)
    ensures w == Flash(v, cfg)
  {
    hide Layered, BeyondFrontier, ConeEntries, Ring, Trimmed, Surplus, SortedKeys, AscendingKeys, Decay, SortBy, Distinct, InOrder, ReadsBefore, Attached, ConeEntry;
    var decay := Decay(cfg);
    var c := SearchLayers(v, decay, cfg.horizon);
    var cut: set<Id> := {};
    if cfg.horizon > 0 { cut := CutDeps(v, c); }
    var ids := SortedKeys(c.depth.Keys);
    var out := AssembleCone(v, c, ids);
    if cfg.includeCallers {
      var ring := AssembleRing(v, decay, c, ids);
      out := out + ring;
    } else {
      assert out + [] == out;
    }
    assert out == Assembled(v, cfg, c);
    out := SortBy(ReadsBefore, out);
    assert out == Read(v, cfg);
    ReadExactly(v, cfg);
    var kept, dropped := Trim(out, cfg.maxNodes);
    w := Window(kept, cut == {}, |cut| + dropped, |v.seeds|);
  }
}
