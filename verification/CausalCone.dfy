/** The bounded dependency cone: layered search against shortest dependency distance. */
module CausalCone {
  import opened Results
  import opened Keys
  import opened Layers
  import opened Sorting

  type Id = Bytes

  datatype NodeState = Stable | Working | Orphan
  datatype Node = Node(state: NodeState, trust: real)
  datatype EdgeType = DependsOn | Contains | References | Causes | RelatedTo | Calls | DataFlow | Supports | Contradicts
  datatype Edge = Edge(source: Id, target: Id, kind: EdgeType, weight: real)
  datatype Graph = Graph(nodes: map<Id, Node>, edges: seq<Edge>)

  datatype Hop = Hop(id: Id, weight: real)
  datatype Adjacency = Adjacency(fwd: map<Id, seq<Hop>>, rev: map<Id, seq<Id>>)

  predicate IsDependency(k: EdgeType) {
    k.DependsOn? || k.Contains? || k.References? || k.Causes? || k.Calls? || k.DataFlow?
  }

  // ---------------------------------------------------------------- the adjacency index

  predicate HopLeq(a: Hop, b: Hop) {
    Leq(a.id, b.id)
  }

  /** The dependencies of `a`, in edge order. */
  function HopsFrom(edges: seq<Edge>, a: Id): seq<Hop> {
    if edges == [] then []
    else
      var e := edges[|edges| - 1];
      HopsFrom(edges[..|edges| - 1], a) + (if IsDependency(e.kind) && e.source == a then [Hop(e.target, e.weight)] else [])
  }

  /** The dependents of `b`, in edge order. */
  function SourcesTo(edges: seq<Edge>, b: Id): seq<Id> {
    if edges == [] then []
    else
      var e := edges[|edges| - 1];
      SourcesTo(edges[..|edges| - 1], b) + (if IsDependency(e.kind) && e.target == b then [e.source] else [])
  }

  function Kids(adj: Adjacency, a: Id): seq<Hop> {
    if a in adj.fwd then adj.fwd[a] else []
  }

  function Callers(adj: Adjacency, b: Id): seq<Id> {
    if b in adj.rev then adj.rev[b] else []
  }

  /** The index lists each node's dependencies and dependents by id. */
  ghost predicate Indexes(adj: Adjacency, g: Graph) {
    && (forall a :: Kids(adj, a) == SortBy(HopLeq, HopsFrom(g.edges, a)))
    && (forall b :: Callers(adj, b) == SortBy(Leq, SourcesTo(g.edges, b)))
  }

  lemma {:induction false} HopsAreEdges(edges: seq<Edge>, a: Id, h: Hop)
    ensures h in HopsFrom(edges, a) <==> exists e :: e in edges && IsDependency(e.kind) && e.source == a && e.target == h.id && e.weight == h.weight
  {
    if edges != [] {
      var n := |edges| - 1;
      assert edges == edges[..n] + [edges[n]];
      HopsAreEdges(edges[..n], a, h);
    }
  }

  lemma {:induction false} SourcesAreEdges(edges: seq<Edge>, b: Id, a: Id)
    ensures a in SourcesTo(edges, b) <==> exists e :: e in edges && IsDependency(e.kind) && e.source == a && e.target == b
  {
    if edges != [] {
      var n := |edges| - 1;
      assert edges == edges[..n] + [edges[n]];
      SourcesAreEdges(edges[..n], b, a);
    }
  }

  // ---------------------------------------------------------------- distance

  /** What the traversal reads: resident nodes, the index and the seeds. */
  datatype View = View(nodes: map<Id, Node>, adj: Adjacency, seeds: set<Id>)

  predicate IsOrphan(v: View, id: Id) {
    id in v.nodes && v.nodes[id].state.Orphan?
  }

  /** `id` is among `hops` and not a resident orphan. */
  predicate HopsTo(v: View, hops: seq<Hop>, id: Id) {
    !IsOrphan(v, id) && exists h :: h in hops && h.id == id
  }

  /** `b` is a dependency of `a` that the cone may enter. */
  predicate Leads(v: View, a: Id, b: Id) {
    HopsTo(v, Kids(v.adj, a), b)
  }

  /** In an indexed graph the cone follows exactly the dependency edges to non-orphans. */
  lemma LeadsExactly(v: View, g: Graph, a: Id, b: Id)
    requires Indexes(v.adj, g)
    ensures Leads(v, a, b) <==>
            !IsOrphan(v, b) && exists e :: e in g.edges && IsDependency(e.kind) && e.source == a && e.target == b
  {
    hide IsDependency, IsOrphan;
    var hops := HopsFrom(g.edges, a);
    if Leads(v, a, b) {
      var h :| h in Kids(v.adj, a) && h.id == b;
      SortElements(HopLeq, hops, h);
      HopsAreEdges(g.edges, a, h);
    }
    if !IsOrphan(v, b) && exists e :: e in g.edges && IsDependency(e.kind) && e.source == a && e.target == b {
      var e :| e in g.edges && IsDependency(e.kind) && e.source == a && e.target == b;
      HopsAreEdges(g.edges, a, Hop(b, e.weight));
      SortElements(HopLeq, hops, Hop(b, e.weight));
    }
  }

  ghost predicate IsPath(v: View, p: seq<Id>) {
    p != [] && p[0] in v.seeds && forall i :: 0 <= i < |p| - 1 ==> Leads(v, p[i], p[i + 1])
  }

  /** Some dependency path of `d` hops from a seed ends at `id`. */
  ghost predicate Reached(v: View, id: Id, d: nat) {
    exists p :: IsPath(v, p) && |p| == d + 1 && p[d] == id
  }

  /** The shortest dependency path to `id` has `d` hops. */
  ghost predicate Distance(v: View, id: Id, d: nat) {
    Reached(v, id, d) && forall k :: 0 <= k < d ==> !Reached(v, id, k)
  }

  lemma ReachedNext(v: View, a: Id, b: Id, d: nat)
    requires Reached(v, a, d) && Leads(v, a, b)
    ensures Reached(v, b, d + 1)
  {
    hide Leads;
    var p :| IsPath(v, p) && |p| == d + 1 && p[d] == a;
    var q := p + [b];
    forall i | 0 <= i < |q| - 1
      ensures Leads(v, q[i], q[i + 1])
    {
      if i < d { assert Leads(v, p[i], p[i + 1]); }
    }
    assert IsPath(v, q) && q[d + 1] == b;
  }

  lemma ReachedBefore(v: View, b: Id, d: nat) returns (a: Id)
    requires Reached(v, b, d + 1)
    ensures Reached(v, a, d) && Leads(v, a, b)
  {
    hide Leads;
    var p :| IsPath(v, p) && |p| == d + 2 && p[d + 1] == b;
    a := p[d];
    assert IsPath(v, p[..d + 1]) && p[..d + 1][d] == a;
  }

  lemma {:induction false} HasDistance(v: View, id: Id, d: nat) returns (k: nat)
    requires Reached(v, id, d)
    ensures k <= d && Distance(v, id, k)
  {
    if j :| 0 <= j < d && Reached(v, id, j) {
      k := HasDistance(v, id, j);
    } else {
      k := d;
    }
  }

  /** One hop before the end of a shortest path is a shortest path. */
  lemma DistanceBefore(v: View, b: Id, d: nat) returns (a: Id)
    requires Distance(v, b, d + 1)
    ensures Distance(v, a, d) && Leads(v, a, b)
  {
    hide Leads, Reached;
    a := ReachedBefore(v, b, d);
    var k := HasDistance(v, a, d);
    ReachedNext(v, a, b, k);
  }

  /** A node not nearer that a node at `d` leads to is at `d + 1`. */
  lemma DistanceNext(v: View, a: Id, b: Id, d: nat)
    requires Distance(v, a, d) && Leads(v, a, b)
    requires forall k :: 0 <= k <= d ==> !Distance(v, b, k)
    ensures Distance(v, b, d + 1)
  {
    hide Leads, Reached;
    ReachedNext(v, a, b, d);
    var k := HasDistance(v, b, d + 1);
  }

  lemma DistanceUnique(v: View, id: Id, a: nat, b: nat)
    requires Distance(v, id, a) && Distance(v, id, b)
    ensures a == b
  {
    hide Reached;
  }

  /** Anything at some distance has a node at every smaller distance behind it. */
  lemma {:induction false} DistancesHaveNoGaps(v: View, id: Id, d: nat, k: nat) returns (a: Id)
    requires Distance(v, id, d) && k <= d
    ensures Distance(v, a, k)
    decreases d
  {
    if k == d {
      a := id;
    } else {
      var b := DistanceBefore(v, id, d - 1);
      a := DistancesHaveNoGaps(v, b, d - 1, k);
    }
  }

  // ---------------------------------------------------------------- the layered search

  datatype Cone = Cone(depth: map<Id, nat>, relevance: map<Id, real>, next: set<Id>)

  function Weight(c: Cone, id: Id): real {
    if id in c.relevance then c.relevance[id] else 0.0
  }

  /** The mass of a dependency after a parent's contribution. */
  function Mass(c: Cone, gain: real, h: Hop): real {
    Weight(c, h.id) + gain * h.weight
  }

  /** One dependency of a frontier node: mass always, a depth the first time. */
  function Touch(v: View, gain: real, d: nat, h: Hop, c: Cone): Cone {
    if IsOrphan(v, h.id) then c
    else
      var relevance := c.relevance[h.id := Mass(c, gain, h)];
      if h.id in c.depth then Cone(c.depth, relevance, c.next) else Cone(c.depth[h.id := d], relevance, c.next + {h.id})
  }

  function Visit(v: View, gain: real, d: nat, hops: seq<Hop>, c: Cone): Cone {
    if hops == [] then c else Touch(v, gain, d, hops[|hops| - 1], Visit(v, gain, d, hops[..|hops| - 1], c))
  }

  /** The mass a parent passes on, as it stands when its turn comes. */
  function Gain(c: Cone, p: Id, decay: real): real {
    Weight(c, p) * decay
  }

  /** The parents of a layer in turn, each with the mass it has when its turn comes. */
  function Spread(v: View, decay: real, d: nat, parents: seq<Id>, c: Cone): Cone {
    if parents == [] then c
    else
      var p := parents[|parents| - 1];
      var b := Spread(v, decay, d, parents[..|parents| - 1], c);
      Visit(v, Gain(b, p, decay), d, Kids(v.adj, p), b)
  }

  /** After `n` layers; `next` is the frontier. */
  function Layered(v: View, decay: real, n: nat): Cone {
    if n == 0 then Cone(map s | s in v.seeds :: 0, map s | s in v.seeds :: 1.0, v.seeds)
    else
      var c := Layered(v, decay, n - 1);
      Spread(v, decay, n, SortedKeys(c.next), c.(next := {}))
  }

  lemma LayeredNext(v: View, decay: real, n: nat)
    ensures var c := Layered(v, decay, n);
            Layered(v, decay, n + 1) == Spread(v, decay, n + 1, SortedKeys(c.next), c.(next := {}))
  {
    hide Spread;
  }

  // ---------------------------------------------------------------- what a layer adds

  /** From `c` to `r` exactly the new nodes of `s` get depth `d` and join the frontier. */
  ghost predicate Gains(c: Cone, r: Cone, d: nat, s: iset<Id>) {
    && (forall id :: id in r.depth <==> id in c.depth || id in s)
    && (forall id :: id in c.depth ==> r.depth[id] == c.depth[id])
    && (forall id :: id in s && id !in c.depth ==> r.depth[id] == d)
    && (forall id :: id in r.next <==> id in c.next || (id in s && id !in c.depth))
  }

  ghost function HopSet(v: View, hops: seq<Hop>): iset<Id> {
    iset id | HopsTo(v, hops, id)
  }

  ghost function LeadSet(v: View, parents: seq<Id>): iset<Id> {
    iset p, id | p in parents && Leads(v, p, id) :: id
  }

  lemma GainsThen(c: Cone, b: Cone, r: Cone, d: nat, s: iset<Id>, t: iset<Id>)
    requires Gains(c, b, d, s) && Gains(b, r, d, t)
    ensures Gains(c, r, d, s + t)
  {
  }

  lemma GainsNothing(c: Cone, d: nat, s: iset<Id>)
    requires forall id :: id !in s
    ensures Gains(c, c, d, s)
  {
  }

  lemma NoHops(v: View)
    ensures HopSet(v, []) == iset{} && LeadSet(v, []) == iset{}
  {
  }

  lemma HopSetAppend(v: View, hops: seq<Hop>, h: Hop)
    ensures HopSet(v, hops + [h]) == HopSet(v, hops) + HopSet(v, [h])
  {
    hide IsOrphan;
    forall id
      ensures id in HopSet(v, hops + [h]) <==> id in HopSet(v, hops) || id in HopSet(v, [h])
    {
      assert forall x :: x in hops + [h] <==> x in hops || x in [h];
    }
  }

  lemma TouchGains(v: View, gain: real, d: nat, h: Hop, c: Cone)
    ensures Gains(c, Touch(v, gain, d, h, c), d, HopSet(v, [h]))
  {
    hide IsOrphan;
    assert h in [h];
  }

  lemma {:induction false} VisitGains(v: View, gain: real, d: nat, hops: seq<Hop>, c: Cone)
    ensures Gains(c, Visit(v, gain, d, hops, c), d, HopSet(v, hops))
  {
    hide Touch, Gains, HopSet;
    if hops == [] {
      NoHops(v);
      GainsNothing(c, d, HopSet(v, hops));
    } else {
      var n := |hops| - 1;
      var b := Visit(v, gain, d, hops[..n], c);
      VisitGains(v, gain, d, hops[..n], c);
      TouchGains(v, gain, d, hops[n], b);
      assert hops == hops[..n] + [hops[n]];
      HopSetAppend(v, hops[..n], hops[n]);
      GainsThen(c, b, Visit(v, gain, d, hops, c), d, HopSet(v, hops[..n]), HopSet(v, [hops[n]]));
    }
  }

  lemma LeadSetAppend(v: View, parents: seq<Id>, p: Id)
    ensures LeadSet(v, parents + [p]) == LeadSet(v, parents) + HopSet(v, Kids(v.adj, p))
  {
    hide HopsTo;
    assert forall x :: x in parents + [p] <==> x in parents || x == p;
    forall id
      ensures id in LeadSet(v, parents + [p]) <==> id in LeadSet(v, parents) || id in HopSet(v, Kids(v.adj, p))
    {
      assert id in HopSet(v, Kids(v.adj, p)) <==> Leads(v, p, id);
    }
  }

  lemma {:induction false} SpreadGains(v: View, decay: real, d: nat, parents: seq<Id>, c: Cone)
    ensures Gains(c, Spread(v, decay, d, parents, c), d, LeadSet(v, parents))
  {
    hide Visit, Gains, HopSet, LeadSet, Kids, Gain;
    if parents == [] {
      NoHops(v);
      GainsNothing(c, d, LeadSet(v, parents));
    } else {
      var n := |parents| - 1;
      var b := Spread(v, decay, d, parents[..n], c);
      SpreadGains(v, decay, d, parents[..n], c);
      VisitGains(v, Gain(b, parents[n], decay), d, Kids(v.adj, parents[n]), b);
      assert parents == parents[..n] + [parents[n]];
      LeadSetAppend(v, parents[..n], parents[n]);
      GainsThen(c, b, Spread(v, decay, d, parents, c), d, LeadSet(v, parents[..n]), HopSet(v, Kids(v.adj, parents[n])));
    }
  }

  // ---------------------------------------------------------------- depth is distance

  /** The cone holds exactly the nodes within `n`, each at its distance; the frontier is the nodes at `n`. */
  ghost predicate Exact(v: View, c: Cone, n: nat) {
    && (forall id :: id in c.depth ==> c.depth[id] <= n && Distance(v, id, c.depth[id]))
    && (forall id, k :: 0 <= k <= n && Distance(v, id, k) ==> id in c.depth)
    && (forall id :: id in c.next <==> Distance(v, id, n))
  }

  lemma SeedsAreAtZero(v: View, id: Id)
    ensures Distance(v, id, 0) <==> id in v.seeds
  {
    if id in v.seeds { assert IsPath(v, [id]) && [id][0] == id; }
  }

  lemma ExactStep(v: View, c: Cone, r: Cone, parents: seq<Id>, n: nat)
    requires Exact(v, c, n) && (forall p :: p in parents <==> p in c.next)
    requires Gains(c.(next := {}), r, n + 1, LeadSet(v, parents))
    ensures Exact(v, r, n + 1)
  {
    hide Leads, Distance;
    forall id
      ensures id in LeadSet(v, parents) && id !in c.depth <==> Distance(v, id, n + 1)
    {
      if id in LeadSet(v, parents) && id !in c.depth {
        var p :| p in parents && Leads(v, p, id);
        DistanceNext(v, p, id, n);
      }
      if Distance(v, id, n + 1) {
        var p := DistanceBefore(v, id, n);
        assert p in parents && id in LeadSet(v, parents);
        if id in c.depth { DistanceUnique(v, id, n + 1, c.depth[id]); }
      }
    }
  }

  /** Depth is the shortest dependency distance from the seeds through non-orphans, for every node within the horizon and no other. */
  lemma {:induction false} ConeIsExact(v: View, decay: real, n: nat)
    ensures Exact(v, Layered(v, decay, n), n)
  {
    hide Gains, Spread, Exact, LeadSet, Layered;
    if n == 0 {
      ExactStart(v, decay);
    } else {
      LayeredNext(v, decay, n - 1);
      ConeIsExact(v, decay, n - 1);
      var c := Layered(v, decay, n - 1);
      SpreadGains(v, decay, n, SortedKeys(c.next), c.(next := {}));
      ExactStep(v, c, Layered(v, decay, n), SortedKeys(c.next), n - 1);
    }
  }

  lemma ExactStart(v: View, decay: real)
    ensures Exact(v, Layered(v, decay, 0), 0)
  {
    hide Distance;
    forall id
      ensures Distance(v, id, 0) <==> id in v.seeds
    {
      SeedsAreAtZero(v, id);
    }
  }

  /** An empty frontier is a fixpoint: stopping there is the same as going on to the horizon. */
  lemma {:induction false} EmptyFrontierStays(v: View, decay: real, m: nat, n: nat)
    requires m <= n && Layered(v, decay, m).next == {}
    ensures Layered(v, decay, n) == Layered(v, decay, m)
    decreases n
  {
    if m < n {
      EmptyFrontierStays(v, decay, m, n - 1);
      assert SortedKeys({}) == [];
    }
  }

  // ---------------------------------------------------------------- the cut

  function BeyondFrontier(v: View, c: Cone): set<Id> {
    set p, h | p in c.next && h in Kids(v.adj, p) && !IsOrphan(v, h.id) && h.id !in c.depth :: h.id
  }

  function Cut(v: View, c: Cone, horizon: nat): set<Id> {
    if horizon > 0 then BeyondFrontier(v, c) else {}
  }

  lemma BeyondMeans(v: View, c: Cone, id: Id)
    ensures id in BeyondFrontier(v, c) <==> id !in c.depth && exists p :: p in c.next && Leads(v, p, id)
  {
    hide IsOrphan, Kids;
    if id !in c.depth && exists p :: p in c.next && Leads(v, p, id) {
      var p :| p in c.next && Leads(v, p, id);
      var h :| h in Kids(v.adj, p) && h.id == id;
      assert !IsOrphan(v, h.id);
    }
  }

  /** What lies behind the frontier is exactly the nodes at distance horizon + 1. */
  lemma BeyondExactly(v: View, decay: real, horizon: nat, id: Id)
    ensures id in BeyondFrontier(v, Layered(v, decay, horizon)) <==> Distance(v, id, horizon + 1)
  {
    hide Layered, Leads, Distance, BeyondFrontier;
    var c := Layered(v, decay, horizon);
    ConeIsExact(v, decay, horizon);
    BeyondMeans(v, c, id);
    if id !in c.depth && exists p :: p in c.next && Leads(v, p, id) {
      var p :| p in c.next && Leads(v, p, id);
      DistanceNext(v, p, id, horizon);
    }
    if Distance(v, id, horizon + 1) {
      var p := DistanceBefore(v, id, horizon);
      assert p in c.next;
      if id in c.depth { DistanceUnique(v, id, horizon + 1, c.depth[id]); }
    }
  }

  /** Nothing is reachable beyond the horizon. */
  ghost predicate Closed(v: View, horizon: nat) {
    forall id, k: nat :: Distance(v, id, k) ==> k <= horizon
  }

  lemma NothingBeyondExactly(v: View, decay: real, horizon: nat)
    ensures BeyondFrontier(v, Layered(v, decay, horizon)) == {} <==> Closed(v, horizon)
  {
    hide Layered, Distance, BeyondFrontier;
    var beyond := BeyondFrontier(v, Layered(v, decay, horizon));
    forall id
      ensures id in beyond <==> Distance(v, id, horizon + 1)
    {
      BeyondExactly(v, decay, horizon, id);
    }
    if Closed(v, horizon) {
      assert forall id :: id !in beyond;
    } else {
      var id, k: nat :| Distance(v, id, k) && k > horizon;
      var a := DistancesHaveNoGaps(v, id, k, horizon + 1);
      assert a in beyond;
    }
  }

  /** The completeness flag is right exactly for a positive horizon, or when the seeds lead nowhere. */
  lemma CompleteFlagExactly(v: View, decay: real, horizon: nat)
    ensures (Cut(v, Layered(v, decay, horizon), horizon) == {} <==> Closed(v, horizon)) <==> horizon > 0 || Closed(v, 0)
  {
    hide Layered, Closed, BeyondFrontier;
    NothingBeyondExactly(v, decay, horizon);
  }

  const SEED: Id := [97]
  const DEPENDENCY: Id := [98]

  /** A working node that depends on another, and its index. */
  function OneEdge(): Graph {
    Graph(map[SEED := Node(Working, 1.0), DEPENDENCY := Node(Stable, 1.0)], [Edge(SEED, DEPENDENCY, DependsOn, 1.0)])
  }

  function OneEdgeIndex(): Adjacency {
    Adjacency(map[SEED := [Hop(DEPENDENCY, 1.0)]], map[DEPENDENCY := [SEED]])
  }

  lemma OneEdgeIsIndexed()
    ensures Indexes(OneEdgeIndex(), OneEdge())
  {
    var g := OneEdge();
    assert g.edges[..0] == [] && g.edges[0].target == DEPENDENCY;
    forall a
      ensures Kids(OneEdgeIndex(), a) == SortBy(HopLeq, HopsFrom(g.edges, a))
    {
      assert HopsFrom(g.edges, a) == if a == SEED then [Hop(DEPENDENCY, 1.0)] else [];
    }
    forall b
      ensures Callers(OneEdgeIndex(), b) == SortBy(Leq, SourcesTo(g.edges, b))
    {
      assert SourcesTo(g.edges, b) == if b == DEPENDENCY then [SEED] else [];
    }
  }

  /** At horizon zero a seed with a dependency is still reported complete. */
  lemma HorizonZeroMisreports(decay: real)
    ensures Indexes(OneEdgeIndex(), OneEdge())
    ensures var v := View(OneEdge().nodes, OneEdgeIndex(), {SEED});
            Cut(v, Layered(v, decay, 0), 0) == {} && !Closed(v, 0)
  {
    OneEdgeIsIndexed();
    var v := View(OneEdge().nodes, OneEdgeIndex(), {SEED});
    assert Kids(v.adj, SEED)[0] == Hop(DEPENDENCY, 1.0);
    assert Leads(v, SEED, DEPENDENCY);
    BeyondMeans(v, Layered(v, decay, 0), DEPENDENCY);
    NothingBeyondExactly(v, decay, 0);
  }
}
