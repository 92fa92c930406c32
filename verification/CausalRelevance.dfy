/** What relevance means: a layer's sequential updates are one simultaneous inflow when no edge stays inside the layer. */
module CausalRelevance {
  import opened Results
  import opened Keys
  import opened Layers
  import opened CausalCone

  /** What one hop weighs for `id`. */
  function HopWeight(v: View, h: Hop, id: Id): real {
    if h.id == id && !IsOrphan(v, id) then h.weight else 0.0
  }

  /** The weight of all hops to `id`. */
  function HopMass(v: View, hops: seq<Hop>, id: Id): real {
    if hops == [] then 0.0
    else HopMass(v, hops[..|hops| - 1], id) + HopWeight(v, hops[|hops| - 1], id)
  }

  /** What `parents` pass to `id`, all at the mass they have in `c`. */
  function Inflow(v: View, decay: real, c: Cone, parents: seq<Id>, id: Id): real {
    if parents == [] then 0.0
    else
      var p := parents[|parents| - 1];
      Inflow(v, decay, c, parents[..|parents| - 1], id) + Scaled(Gain(c, p, decay), HopMass(v, Kids(v.adj, p), id))
  }

  function Scaled(x: real, y: real): real {
    x * y
  }

  ghost predicate NoInnerEdge(v: View, parents: seq<Id>) {
    forall p, q :: p in parents && q in parents ==> !Leads(v, p, q)
  }

  lemma ScaledSum(x: real, y: real, w: real)
    ensures Scaled(x, y + w) == Scaled(x, y) + Scaled(x, w)
    ensures Scaled(x, 0.0) == 0.0
  {
  }

  lemma TouchMass(v: View, gain: real, d: nat, h: Hop, c: Cone, id: Id)
    ensures Weight(Touch(v, gain, d, h, c), id) == Weight(c, id) + Scaled(gain, HopWeight(v, h, id))
  {
    hide IsOrphan;
  }

  lemma {:induction false} VisitMass(v: View, gain: real, d: nat, hops: seq<Hop>, c: Cone, id: Id)
    ensures Weight(Visit(v, gain, d, hops, c), id) == Weight(c, id) + Scaled(gain, HopMass(v, hops, id))
  {
    hide Touch, HopWeight, Weight, Scaled;
    if hops == [] {
      ScaledSum(gain, 0.0, 0.0);
    } else {
      var n := |hops| - 1;
      var b := Visit(v, gain, d, hops[..n], c);
      VisitMass(v, gain, d, hops[..n], c, id);
      TouchMass(v, gain, d, hops[n], b, id);
      ScaledSum(gain, HopMass(v, hops[..n], id), HopWeight(v, hops[n], id));
      assert Visit(v, gain, d, hops, c) == Touch(v, gain, d, hops[n], b);
    }
  }

  lemma {:induction false} NoHopNoMass(v: View, hops: seq<Hop>, id: Id)
    requires !HopsTo(v, hops, id)
    ensures HopMass(v, hops, id) == 0.0
  {
    hide IsOrphan;
    if hops != [] {
      var n := |hops| - 1;
      assert forall h :: h in hops[..n] ==> h in hops;
      assert hops[n] in hops;
      NoHopNoMass(v, hops[..n], id);
    }
  }

  lemma {:induction false} NoLeadNoInflow(v: View, decay: real, c: Cone, parents: seq<Id>, id: Id)
    requires forall p :: p in parents ==> !Leads(v, p, id)
    ensures Inflow(v, decay, c, parents, id) == 0.0
  {
    hide HopsTo, Scaled, Gain, HopMass;
    if parents != [] {
      var n := |parents| - 1;
      assert forall p :: p in parents[..n] ==> p in parents;
      NoLeadNoInflow(v, decay, c, parents[..n], id);
      assert !Leads(v, parents[n], id);
      NoHopNoMass(v, Kids(v.adj, parents[n]), id);
      ScaledSum(Gain(c, parents[n], decay), 0.0, 0.0);
    }
  }

  /** With no edge inside the layer, processing its nodes one after the other is the simultaneous inflow, in whatever order. */
  lemma {:induction false} LayerIsSimultaneous(v: View, decay: real, d: nat, parents: seq<Id>, c: Cone, id: Id)
    requires NoInnerEdge(v, parents)
    ensures Weight(Spread(v, decay, d, parents, c), id) == Weight(c, id) + Inflow(v, decay, c, parents, id)
  {
    hide Visit, Scaled, HopMass, Leads, Kids, Weight;
    if parents != [] {
      var n := |parents| - 1;
      var p := parents[n];
      assert forall q :: q in parents[..n] ==> q in parents;
      var b := Spread(v, decay, d, parents[..n], c);
      LayerIsSimultaneous(v, decay, d, parents[..n], c, id);
      LayerIsSimultaneous(v, decay, d, parents[..n], c, p);
      assert p in parents;
      NoLeadNoInflow(v, decay, c, parents[..n], p);
      assert Gain(b, p, decay) == Gain(c, p, decay);
      VisitMass(v, Gain(b, p, decay), d, Kids(v.adj, p), b, id);
    }
  }

  /** A node's relevance after one more layer: what it had, plus the decayed mass of the frontier nodes that depend on it. */
  lemma RelevanceStep(v: View, decay: real, n: nat, id: Id)
    requires NoInnerEdge(v, SortedKeys(Layered(v, decay, n).next))
    ensures var c := Layered(v, decay, n);
            Weight(Layered(v, decay, n + 1), id) == Weight(c, id) + Inflow(v, decay, c, SortedKeys(c.next), id)
  {
    hide Layered, Spread, NoInnerEdge, SortedKeys, AscendingKeys;
    var c := Layered(v, decay, n);
    LayeredNext(v, decay, n);
    LayerIsSimultaneous(v, decay, n + 1, SortedKeys(c.next), c.(next := {}), id);
    SameInflow(v, decay, c, c.(next := {}), SortedKeys(c.next), id);
  }

  lemma {:induction false} SameInflow(v: View, decay: real, a: Cone, b: Cone, parents: seq<Id>, id: Id)
    requires a.relevance == b.relevance
    ensures Inflow(v, decay, a, parents, id) == Inflow(v, decay, b, parents, id)
  {
    hide HopMass, Kids;
    if parents != [] { SameInflow(v, decay, a, b, parents[..|parents| - 1], id); }
  }

  /** An edge inside the layer does make the order matter: the same two seeds, visited in either order. */
  lemma InnerEdgeMakesOrderMatter()
    ensures var a, b, x: Id := [97], [98], [120];
            var v := View(map[], Adjacency(map[a := [Hop(b, 1.0)], b := [Hop(x, 1.0)]], map[]), {a, b});
            var c := Cone(map[a := 0, b := 0], map[a := 1.0, b := 1.0], {});
            && Weight(Spread(v, 0.5, 1, [a, b], c), x) == 0.75
            && Weight(Spread(v, 0.5, 1, [b, a], c), x) == 0.5
  {
    var a, b, x: Id := [97], [98], [120];
    var v := View(map[], Adjacency(map[a := [Hop(b, 1.0)], b := [Hop(x, 1.0)]], map[]), {a, b});
    var c := Cone(map[a := 0, b := 0], map[a := 1.0, b := 1.0], {});
    OneHop(v, 0.5, a, b, c, a);
    OneHop(v, 0.5, a, b, c, b);
    OneHop(v, 0.5, a, b, c, x);
    OneHop(v, 0.5, b, x, c, a);
    OneHop(v, 0.5, b, x, c, x);
    TwoParents(v, 0.5, a, b, c);
    TwoParents(v, 0.5, b, a, c);
    OneHop(v, 0.5, b, x, Spread(v, 0.5, 1, [a], c), x);
    OneHop(v, 0.5, a, b, Spread(v, 0.5, 1, [b], c), x);
  }

  /** A parent with a single dependency passes its decayed mass to it and nothing elsewhere. */
  lemma OneHop(v: View, decay: real, p: Id, q: Id, c: Cone, id: Id)
    requires Kids(v.adj, p) == [Hop(q, 1.0)] && !IsOrphan(v, q)
    ensures Spread(v, decay, 1, [p], c) == Visit(v, Gain(c, p, decay), 1, Kids(v.adj, p), c)
    ensures Weight(Spread(v, decay, 1, [p], c), id) == Weight(c, id) + (if id == q then Weight(c, p) * decay else 0.0)
  {
    hide Visit, IsOrphan;
    assert [p][..0] == [];
    var hops := [Hop(q, 1.0)];
    assert hops[..0] == [];
    VisitMass(v, Gain(c, p, decay), 1, hops, c, id);
    assert HopMass(v, hops[..0], id) == 0.0;
    assert HopMass(v, hops, id) == if id == q then 1.0 else 0.0;
  }

  lemma TwoParents(v: View, decay: real, p: Id, q: Id, c: Cone)
    ensures Spread(v, decay, 1, [p, q], c) == Spread(v, decay, 1, [q], Spread(v, decay, 1, [p], c))
  {
    hide Visit, Gain, Kids;
    assert [p, q][..1] == [p] && [q][..0] == [] && [p][..0] == [];
    assert Spread(v, decay, 1, [], Spread(v, decay, 1, [p], c)) == Spread(v, decay, 1, [p], c);
  }
}
