/** The window depends on the cone and its ring alone: whatever happens elsewhere in the graph leaves it unchanged. */
module CausalLocality {
  import opened Results
  import opened Keys
  import opened Layers
  import opened Sorting
  import opened CausalCone
  import opened CausalWindow

  function NodeAt(v: View, id: Id): Option<Node> {
    if id in v.nodes then Some(v.nodes[id]) else None
  }

  /** The two views look the same from `p`: itself, its dependencies and its callers. */
  ghost predicate SameAt(v: View, w: View, p: Id) {
    && Kids(v.adj, p) == Kids(w.adj, p)
    && Callers(v.adj, p) == Callers(w.adj, p)
    && NodeAt(v, p) == NodeAt(w, p)
    && (forall h :: h in Kids(v.adj, p) ==> NodeAt(v, h.id) == NodeAt(w, h.id))
    && (forall x :: x in Callers(v.adj, p) ==> NodeAt(v, x) == NodeAt(w, x))
  }

  ghost predicate SameAround(v: View, w: View, ids: set<Id>) {
    v.seeds == w.seeds && forall p :: p in ids ==> SameAt(v, w, p)
  }

  lemma {:induction false} VisitAgrees(v: View, w: View, gain: real, d: nat, hops: seq<Hop>, c: Cone)
    requires forall h :: h in hops ==> NodeAt(v, h.id) == NodeAt(w, h.id)
    ensures Visit(v, gain, d, hops, c) == Visit(w, gain, d, hops, c)
  {
    if hops != [] {
      var n := |hops| - 1;
      assert forall h :: h in hops[..n] ==> h in hops;
      VisitAgrees(v, w, gain, d, hops[..n], c);
      assert NodeAt(v, hops[n].id) == NodeAt(w, hops[n].id);
    }
  }

  lemma {:induction false} SpreadAgrees(v: View, w: View, decay: real, d: nat, parents: seq<Id>, c: Cone)
    requires forall p :: p in parents ==> SameAt(v, w, p)
    ensures Spread(v, decay, d, parents, c) == Spread(w, decay, d, parents, c)
  {
    hide Visit, Gain, NodeAt, Kids, Callers;
    if parents != [] {
      var n := |parents| - 1;
      assert forall p :: p in parents[..n] ==> p in parents;
      SpreadAgrees(v, w, decay, d, parents[..n], c);
      assert SameAt(v, w, parents[n]);
      var b := Spread(v, decay, d, parents[..n], c);
      VisitAgrees(v, w, Gain(b, parents[n], decay), d, Kids(v.adj, parents[n]), b);
    }
  }

  lemma ConeGrows(v: View, decay: real, n: nat)
    ensures Layered(v, decay, n).depth.Keys <= Layered(v, decay, n + 1).depth.Keys
    ensures Layered(v, decay, n).next <= Layered(v, decay, n).depth.Keys
  {
    ConeIsExact(v, decay, n);
    ConeIsExact(v, decay, n + 1);
    hide Layered, Distance;
    var c := Layered(v, decay, n);
    forall id | id in c.depth
      ensures id in Layered(v, decay, n + 1).depth
    {
      assert Distance(v, id, c.depth[id]);
    }
  }

  lemma {:induction false} ConeGrowsTo(v: View, decay: real, m: nat, n: nat)
    requires m <= n
    ensures Layered(v, decay, m).depth.Keys <= Layered(v, decay, n).depth.Keys
    decreases n
  {
    hide Layered;
    if m < n {
      ConeGrowsTo(v, decay, m, n - 1);
      ConeGrows(v, decay, n - 1);
    }
  }

  lemma LayeredStart(v: View, w: View, decay: real)
    requires v.seeds == w.seeds
    ensures Layered(v, decay, 0) == Layered(w, decay, 0)
  {
  }

  lemma {:induction false} LayeredAgrees(v: View, w: View, decay: real, n: nat, horizon: nat)
    requires n <= horizon && SameAround(v, w, Layered(v, decay, horizon).depth.Keys)
    ensures Layered(v, decay, n) == Layered(w, decay, n)
  {
    hide Spread, SameAt, Layered, SortedKeys, AscendingKeys;
    if n == 0 {
      LayeredStart(v, w, decay);
    } else {
      LayeredNext(v, decay, n - 1);
      LayeredNext(w, decay, n - 1);
      LayeredAgrees(v, w, decay, n - 1, horizon);
      var c := Layered(v, decay, n - 1);
      ConeGrows(v, decay, n - 1);
      ConeGrowsTo(v, decay, n - 1, horizon);
      var keys := Layered(v, decay, horizon).depth.Keys;
      forall p | p in SortedKeys(c.next)
        ensures SameAt(v, w, p)
      {
        assert p in c.next;
        assert p in keys;
      }
      SpreadAgrees(v, w, decay, n, SortedKeys(c.next), c.(next := {}));
    }
  }

  lemma CutAgrees(v: View, w: View, c: Cone)
    requires SameAround(v, w, c.depth.Keys) && c.next <= c.depth.Keys
    ensures BeyondFrontier(v, c) == BeyondFrontier(w, c)
  {
    hide Kids, Callers;
    forall p, h | p in c.next && h in Kids(v.adj, p)
      ensures h in Kids(w.adj, p) && (IsOrphan(v, h.id) <==> IsOrphan(w, h.id))
    {
      assert SameAt(v, w, p);
    }
    forall p | p in c.next
      ensures Kids(v.adj, p) == Kids(w.adj, p)
    {
      assert SameAt(v, w, p);
    }
  }

  lemma {:induction false} ConeEntriesAgree(v: View, w: View, c: Cone, ids: seq<Id>)
    requires v.seeds == w.seeds && forall id :: id in ids ==> NodeAt(v, id) == NodeAt(w, id)
    ensures ConeEntries(v, c, ids) == ConeEntries(w, c, ids)
  {
    if ids != [] {
      var n := |ids| - 1;
      assert forall id :: id in ids[..n] ==> id in ids;
      ConeEntriesAgree(v, w, c, ids[..n]);
      assert NodeAt(v, ids[n]) == NodeAt(w, ids[n]);
    }
  }

  lemma {:induction false} RingVisitAgrees(v: View, w: View, decay: real, c: Cone, cone: Id, callers: seq<Id>, ring: seq<Entry>)
    requires forall x :: x in callers ==> NodeAt(v, x) == NodeAt(w, x)
    ensures RingVisit(v, decay, c, cone, callers, ring) == RingVisit(w, decay, c, cone, callers, ring)
  {
    hide InRing;
    if callers != [] {
      var n := |callers| - 1;
      assert forall x :: x in callers[..n] ==> x in callers;
      RingVisitAgrees(v, w, decay, c, cone, callers[..n], ring);
      assert NodeAt(v, callers[n]) == NodeAt(w, callers[n]);
    }
  }

  lemma {:induction false} RingAgrees(v: View, w: View, decay: real, c: Cone, ids: seq<Id>)
    requires forall p :: p in ids ==> SameAt(v, w, p)
    ensures Ring(v, decay, c, ids) == Ring(w, decay, c, ids)
  {
    hide RingVisit, NodeAt, Kids, Callers;
    if ids != [] {
      var n := |ids| - 1;
      assert forall p :: p in ids[..n] ==> p in ids;
      RingAgrees(v, w, decay, c, ids[..n]);
      assert SameAt(v, w, ids[n]);
      RingVisitAgrees(v, w, decay, c, ids[n], Callers(v.adj, ids[n]), Ring(v, decay, c, ids[..n]));
    }
  }

  lemma AssemblyAgrees(v: View, w: View, cfg: Config, c: Cone)
    requires SameAround(v, w, c.depth.Keys)
    ensures Assembled(v, cfg, c) == Assembled(w, cfg, c)
  {
    hide ConeEntries, Ring, Kids, Callers, Decay, SortedKeys, AscendingKeys;
    var ids := SortedKeys(c.depth.Keys);
    forall p | p in ids
      ensures SameAt(v, w, p)
    {
      assert p in c.depth.Keys;
    }
    ConeEntriesAgree(v, w, c, ids);
    RingAgrees(v, w, Decay(cfg), c, ids);
  }

  /** Two views that look the same around the cone give the same window. */
  lemma WindowAgrees(v: View, w: View, cfg: Config)
    requires SameAround(v, w, Layered(v, Decay(cfg), cfg.horizon).depth.Keys)
    ensures Flash(v, cfg) == Flash(w, cfg)
  {
    hide Layered, Assembled, SameAt, Trimmed, Surplus, BeyondFrontier, Decay, SortBy;
    var c := Layered(v, Decay(cfg), cfg.horizon);
    LayeredAgrees(v, w, Decay(cfg), cfg.horizon, cfg.horizon);
    ConeGrows(v, Decay(cfg), cfg.horizon);
    CutAgrees(v, w, c);
    AssemblyAgrees(v, w, cfg, c);
  }

  // ---------------------------------------------------------------- at the level of the graph

  /** No added dependency edge touches the cone, no added or changed node is in it, under it or in its ring. */
  ghost predicate NotIncident(v: View, c: Cone, nodes: map<Id, Node>, edges: seq<Edge>) {
    && (forall e :: e in edges && IsDependency(e.kind) ==> e.source !in c.depth && e.target !in c.depth)
    && (forall p :: p in c.depth ==> p !in nodes && (forall h :: h in Kids(v.adj, p) ==> h.id !in nodes) && (forall x :: x in Callers(v.adj, p) ==> x !in nodes))
  }

  lemma {:induction false} HopsUnchanged(edges: seq<Edge>, more: seq<Edge>, a: Id)
    requires forall e :: e in more && IsDependency(e.kind) ==> e.source != a
    ensures HopsFrom(edges + more, a) == HopsFrom(edges, a)
  {
    hide IsDependency;
    if more == [] {
      assert edges + more == edges;
    } else {
      var n := |more| - 1;
      assert (edges + more)[..|edges + more| - 1] == edges + more[..n];
      assert more[n] in more;
      HopsUnchanged(edges, more[..n], a);
    }
  }

  lemma {:induction false} SourcesUnchanged(edges: seq<Edge>, more: seq<Edge>, b: Id)
    requires forall e :: e in more && IsDependency(e.kind) ==> e.target != b
    ensures SourcesTo(edges + more, b) == SourcesTo(edges, b)
  {
    hide IsDependency;
    if more == [] {
      assert edges + more == edges;
    } else {
      var n := |more| - 1;
      assert (edges + more)[..|edges + more| - 1] == edges + more[..n];
      assert more[n] in more;
      SourcesUnchanged(edges, more[..n], b);
    }
  }

  /** Nodes and edges added away from the cone leave the window unchanged. */
  lemma WindowIsLocal(g: Graph, adj: Adjacency, nodes: map<Id, Node>, edges: seq<Edge>, adj2: Adjacency, seeds: set<Id>, cfg: Config)
    requires Indexes(adj, g) && Indexes(adj2, Graph(g.nodes + nodes, g.edges + edges))
    requires NotIncident(View(g.nodes, adj, seeds), Layered(View(g.nodes, adj, seeds), Decay(cfg), cfg.horizon), nodes, edges)
    ensures Flash(View(g.nodes + nodes, adj2, seeds), cfg) == Flash(View(g.nodes, adj, seeds), cfg)
  {
    hide Layered, Flash, IsDependency, Decay, SortBy, HopsFrom, SourcesTo, Kids, Callers;
    var v, w := View(g.nodes, adj, seeds), View(g.nodes + nodes, adj2, seeds);
    var c := Layered(v, Decay(cfg), cfg.horizon);
    forall p | p in c.depth.Keys
      ensures SameAt(v, w, p)
    {
      HopsUnchanged(g.edges, edges, p);
      SourcesUnchanged(g.edges, edges, p);
    }
    WindowAgrees(v, w, cfg);
  }
}
