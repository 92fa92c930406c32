/** The window built on a cone: its caller ring, reading order, budget, and what it does not depend on. */
module CausalWindow {
  import opened Numbers
  import opened Results
  import opened Keys
  import opened Layers
  import opened Sorting
  import opened CausalCone

  datatype Role = Seed | Dependency | Caller
  datatype Entry = Entry(id: Id, state: NodeState, trust: real, role: Role, depth: nat, relevance: real)

  datatype Config = Config(
    horizon: nat,
    includeLowTrustSeeds: bool,
    trustThreshold: real,
    decay: real,
    includeCallers: bool,
    maxNodes: Option<nat>
  )

  datatype Window = Window(nodes: seq<Entry>, complete: bool, omitted: nat, seedCount: nat)

  function TwoTo(n: nat): (r: real)
    ensures r >= 1.0
  {
    if n == 0 then 1.0 else 2.0 * TwoTo(n - 1)
  }

  /** The least positive normal double. */
  const MIN_POSITIVE: real := 1.0 / TwoTo(1022)

  function Decay(cfg: Config): real {
    if cfg.decay < MIN_POSITIVE then MIN_POSITIVE else if cfg.decay > 1.0 then 1.0 else cfg.decay
  }

  // ---------------------------------------------------------------- cone entries

  function DepthOf(c: Cone, id: Id): nat {
    if id in c.depth then c.depth[id] else 0
  }

  function ConeEntry(v: View, c: Cone, id: Id): Entry
    requires id in v.nodes
  {
    Entry(id, v.nodes[id].state, v.nodes[id].trust, if id in v.seeds then Seed else Dependency, DepthOf(c, id), Weight(c, id))
  }

  /** The resident nodes among `ids`, in turn. */
  function ConeEntries(v: View, c: Cone, ids: seq<Id>): seq<Entry> {
    if ids == [] then []
    else
      var id := ids[|ids| - 1];
      ConeEntries(v, c, ids[..|ids| - 1]) + (if id in v.nodes then [ConeEntry(v, c, id)] else [])
  }

  ghost predicate DistinctIds(es: seq<Entry>) {
    forall i, j :: 0 <= i < j < |es| ==> es[i].id != es[j].id
  }

  lemma DistinctIdsAppend(es: seq<Entry>, fs: seq<Entry>)
    requires DistinctIds(es) && DistinctIds(fs)
    requires forall e, f :: e in es && f in fs ==> e.id != f.id
    ensures DistinctIds(es + fs)
  {
    forall i, j | 0 <= i < j < |es + fs|
      ensures (es + fs)[i].id != (es + fs)[j].id
    {
      if i < |es| <= j { assert (es + fs)[i] in es && (es + fs)[j] in fs; }
    }
  }

  lemma {:induction false} ConeEntriesExactly(v: View, c: Cone, ids: seq<Id>)
    requires Distinct(ids)
    ensures DistinctIds(ConeEntries(v, c, ids))
    ensures forall e :: e in ConeEntries(v, c, ids) <==> e.id in ids && e.id in v.nodes && e == ConeEntry(v, c, e.id)
  {
    hide ConeEntry;
    if ids != [] {
      var n := |ids| - 1;
      assert ids == ids[..n] + [ids[n]];
      DistinctAppend(ids[..n], ids[n]);
      ConeEntriesExactly(v, c, ids[..n]);
      if ids[n] in v.nodes {
        ConeEntryId(v, c, ids[n]);
        DistinctIdsAppend(ConeEntries(v, c, ids[..n]), [ConeEntry(v, c, ids[n])]);
      }
    }
  }

  lemma ConeEntryId(v: View, c: Cone, id: Id)
    requires id in v.nodes
    ensures ConeEntry(v, c, id).id == id && !ConeEntry(v, c, id).role.Caller?
  {
  }

  // ---------------------------------------------------------------- the caller ring

  /** A caller the ring may show: resident, not an orphan, not in the cone. */
  predicate Eligible(v: View, c: Cone, caller: Id) {
    caller !in c.depth && caller in v.nodes && !IsOrphan(v, caller)
  }

  function CallerEntry(v: View, decay: real, c: Cone, cone: Id, caller: Id): Entry
    requires caller in v.nodes
  {
    Entry(caller, v.nodes[caller].state, v.nodes[caller].trust, Caller, DepthOf(c, cone), Weight(c, cone) * decay)
  }

  predicate InRing(ring: seq<Entry>, id: Id) {
    exists e :: e in ring && e.id == id
  }

  function RingVisit(v: View, decay: real, c: Cone, cone: Id, callers: seq<Id>, ring: seq<Entry>): seq<Entry> {
    if callers == [] then ring
    else
      var caller := callers[|callers| - 1];
      var b := RingVisit(v, decay, c, cone, callers[..|callers| - 1], ring);
      if Eligible(v, c, caller) && !InRing(b, caller) then b + [CallerEntry(v, decay, c, cone, caller)] else b
  }

  function Ring(v: View, decay: real, c: Cone, ids: seq<Id>): seq<Entry> {
    if ids == [] then []
    else
      var cone := ids[|ids| - 1];
      RingVisit(v, decay, c, cone, Callers(v.adj, cone), Ring(v, decay, c, ids[..|ids| - 1]))
  }

  /** `e` shows an eligible caller at the first of `ids` that it depends on. */
  ghost predicate Attached(v: View, decay: real, c: Cone, ids: seq<Id>, e: Entry) {
    Eligible(v, c, e.id) &&
    exists i :: && 0 <= i < |ids|
                && e.id in Callers(v.adj, ids[i])
                && (forall j :: 0 <= j < i ==> e.id !in Callers(v.adj, ids[j]))
                && e == CallerEntry(v, decay, c, ids[i], e.id)
  }

  /** Some of `ids` has `id` as a caller. */
  ghost predicate Calls(v: View, ids: seq<Id>, id: Id) {
    exists i :: 0 <= i < |ids| && id in Callers(v.adj, ids[i])
  }

  lemma {:induction false} RingVisitExactly(v: View, decay: real, c: Cone, cone: Id, callers: seq<Id>, ring: seq<Entry>)
    requires DistinctIds(ring)
    ensures DistinctIds(RingVisit(v, decay, c, cone, callers, ring))
    ensures forall e :: e in RingVisit(v, decay, c, cone, callers, ring) <==>
              e in ring || (e.id in callers && Eligible(v, c, e.id) && !InRing(ring, e.id) && e == CallerEntry(v, decay, c, cone, e.id))
  {
    hide Eligible, CallerEntry;
    if callers != [] {
      var n := |callers| - 1;
      assert callers == callers[..n] + [callers[n]];
      RingVisitExactly(v, decay, c, cone, callers[..n], ring);
      var b := RingVisit(v, decay, c, cone, callers[..n], ring);
      RingVisitStep(v, decay, c, cone, callers[..n], callers[n], ring, b);
    }
  }

  lemma CallerEntryId(v: View, decay: real, c: Cone, cone: Id, caller: Id)
    requires caller in v.nodes
    ensures CallerEntry(v, decay, c, cone, caller).id == caller && CallerEntry(v, decay, c, cone, caller).role.Caller?
  {
  }

  lemma EligibleResident(v: View, c: Cone, caller: Id)
    ensures Eligible(v, c, caller) ==> caller in v.nodes && caller !in c.depth
  {
  }

  lemma RingVisitStep(v: View, decay: real, c: Cone, cone: Id, before: seq<Id>, caller: Id, ring: seq<Entry>, b: seq<Entry>)
    requires DistinctIds(b)
    requires forall e :: e in b <==>
               e in ring || (e.id in before && Eligible(v, c, e.id) && !InRing(ring, e.id) && e == CallerEntry(v, decay, c, cone, e.id))
    ensures var after := if Eligible(v, c, caller) && !InRing(b, caller) then b + [CallerEntry(v, decay, c, cone, caller)] else b;
            && DistinctIds(after)
            && forall e :: e in after <==>
                 e in ring || (e.id in before + [caller] && Eligible(v, c, e.id) && !InRing(ring, e.id) && e == CallerEntry(v, decay, c, cone, e.id))
  {
    hide Eligible, CallerEntry;
    assert forall x :: x in before + [caller] <==> x in before || x == caller;
    if Eligible(v, c, caller) && !InRing(b, caller) {
      EligibleResident(v, c, caller);
      var added := CallerEntry(v, decay, c, cone, caller);
      CallerEntryId(v, decay, c, cone, caller);
      DistinctIdsAppend(b, [added]);
      assert !InRing(ring, caller);
    } else if Eligible(v, c, caller) {
      EligibleResident(v, c, caller);
      CallerEntryId(v, decay, c, cone, caller);
      if caller !in before { assert InRing(ring, caller); }
    }
  }

  /** The ring is exactly the eligible callers of the cone, each once, at the first cone node it depends on. */
  lemma {:induction false} RingExactly(v: View, decay: real, c: Cone, ids: seq<Id>)
    ensures DistinctIds(Ring(v, decay, c, ids))
    ensures forall e :: e in Ring(v, decay, c, ids) <==> Attached(v, decay, c, ids, e)
    ensures forall id :: InRing(Ring(v, decay, c, ids), id) <==> Eligible(v, c, id) && Calls(v, ids, id)
  {
    hide Eligible, CallerEntry, Callers, RingVisit, Attached, Calls;
    if ids == [] {
      NoneAttached(v, decay, c);
    } else {
      var n := |ids| - 1;
      var cone := ids[n];
      var before := Ring(v, decay, c, ids[..n]);
      RingExactly(v, decay, c, ids[..n]);
      RingVisitExactly(v, decay, c, cone, Callers(v.adj, cone), before);
      assert ids == ids[..n] + [cone];
      forall e
        ensures e in Ring(v, decay, c, ids) <==> Attached(v, decay, c, ids, e)
      {
        AttachedAppend(v, decay, c, ids[..n], cone, e);
      }
      forall id
        ensures InRing(Ring(v, decay, c, ids), id) <==> Eligible(v, c, id) && Calls(v, ids, id)
      {
        RingCalls(v, decay, c, ids[..n], cone, id, before, Ring(v, decay, c, ids));
      }
    }
  }

  lemma NoneAttached(v: View, decay: real, c: Cone)
    ensures forall e :: !Attached(v, decay, c, [], e)
    ensures forall id :: !Calls(v, [], id)
  {
  }

  lemma AttachedAppend(v: View, decay: real, c: Cone, ids: seq<Id>, cone: Id, e: Entry)
    ensures Attached(v, decay, c, ids + [cone], e) <==>
            || Attached(v, decay, c, ids, e)
            || (Eligible(v, c, e.id) && e.id in Callers(v.adj, cone) && !Calls(v, ids, e.id) && e == CallerEntry(v, decay, c, cone, e.id))
  {
    hide IsOrphan, CallerEntry, Callers;
    var all := ids + [cone];
    assert forall i :: 0 <= i < |ids| ==> all[i] == ids[i];
    assert all[|ids|] == cone;
    if Attached(v, decay, c, all, e) {
      var i :| && 0 <= i < |all|
               && e.id in Callers(v.adj, all[i])
               && (forall j :: 0 <= j < i ==> e.id !in Callers(v.adj, all[j]))
               && e == CallerEntry(v, decay, c, all[i], e.id);
      if i < |ids| {
        assert e.id in Callers(v.adj, ids[i]);
        assert forall j :: 0 <= j < i ==> e.id !in Callers(v.adj, ids[j]) by {
          assert forall j :: 0 <= j < i ==> e.id !in Callers(v.adj, all[j]);
        }
      } else {
        assert forall j :: 0 <= j < |ids| ==> all[j] == ids[j] && e.id !in Callers(v.adj, all[j]);
      }
    }
    if Attached(v, decay, c, ids, e) {
      var i :| && 0 <= i < |ids|
               && e.id in Callers(v.adj, ids[i])
               && (forall j :: 0 <= j < i ==> e.id !in Callers(v.adj, ids[j]))
               && e == CallerEntry(v, decay, c, ids[i], e.id);
      assert e.id in Callers(v.adj, all[i]);
    } else if Eligible(v, c, e.id) && e.id in Callers(v.adj, cone) && !Calls(v, ids, e.id) && e == CallerEntry(v, decay, c, cone, e.id) {
      assert forall j :: 0 <= j < |ids| ==> all[j] == ids[j] && e.id !in Callers(v.adj, ids[j]);
      assert e.id in Callers(v.adj, all[|ids|]);
    }
  }

  lemma CallsAppend(v: View, ids: seq<Id>, cone: Id, id: Id)
    ensures Calls(v, ids + [cone], id) <==> Calls(v, ids, id) || id in Callers(v.adj, cone)
  {
    hide Callers;
    var all := ids + [cone];
    assert all[|ids|] == cone;
    if Calls(v, ids, id) {
      var i :| 0 <= i < |ids| && id in Callers(v.adj, ids[i]);
      assert all[i] == ids[i];
    }
  }

  lemma RingCalls(v: View, decay: real, c: Cone, ids: seq<Id>, cone: Id, id: Id, before: seq<Entry>, after: seq<Entry>)
    requires InRing(before, id) <==> Eligible(v, c, id) && Calls(v, ids, id)
    requires forall e :: e in after <==>
               e in before || (e.id in Callers(v.adj, cone) && Eligible(v, c, e.id) && !InRing(before, e.id) && e == CallerEntry(v, decay, c, cone, e.id))
    ensures InRing(after, id) <==> Eligible(v, c, id) && Calls(v, ids + [cone], id)
  {
    hide Eligible, CallerEntry, Callers, Calls;
    CallsAppend(v, ids, cone, id);
    if !InRing(before, id) && Eligible(v, c, id) && id in Callers(v.adj, cone) {
      EligibleResident(v, c, id);
      CallerEntryId(v, decay, c, cone, id);
      assert CallerEntry(v, decay, c, cone, id) in after;
    }
  }

  // ---------------------------------------------------------------- reading order

  function Rank(r: Role): nat {
    match r
    case Seed => 0
    case Dependency => 1
    case Caller => 2
  }

  /** Seeds, then dependencies, then callers; nearer first, then heavier, then by id. */
  predicate ReadsBefore(a: Entry, b: Entry) {
    || Rank(a.role) < Rank(b.role)
    || (Rank(a.role) == Rank(b.role) &&
        (|| a.depth < b.depth
         || (a.depth == b.depth && (a.relevance > b.relevance || (a.relevance == b.relevance && Leq(a.id, b.id))))))
  }

  /** Lightest first, then by id. */
  predicate DropsBefore(a: Entry, b: Entry) {
    a.relevance < b.relevance || (a.relevance == b.relevance && Leq(a.id, b.id))
  }

  lemma LeqOrders(a: Id, b: Id, c: Id)
    ensures Leq(a, b) || Leq(b, a)
    ensures Leq(a, b) && Leq(b, c) ==> Leq(a, c)
  {
    hide Less;
    LessTotal(a, b);
    if Less(a, b) && Less(b, c) { LessTransitive(a, b, c); }
  }

  lemma ReadsBeforeIsTotal()
    ensures TotalOrder(ReadsBefore)
  {
    hide Leq, Rank;
    forall a: Entry, b: Entry, c: Entry
      ensures ReadsBefore(a, b) || ReadsBefore(b, a)
      ensures ReadsBefore(a, b) && ReadsBefore(b, c) ==> ReadsBefore(a, c)
    {
      LeqOrders(a.id, b.id, c.id);
    }
  }

  lemma DropsBeforeIsTotal()
    ensures TotalOrder(DropsBefore)
  {
    hide Leq;
    forall a: Entry, b: Entry, c: Entry
      ensures DropsBefore(a, b) || DropsBefore(b, a)
      ensures DropsBefore(a, b) && DropsBefore(b, c) ==> DropsBefore(a, c)
    {
      LeqOrders(a.id, b.id, c.id);
    }
  }

  // ---------------------------------------------------------------- the budget

  function CallersOf(out: seq<Entry>): seq<Entry> {
    if out == [] then []
    else CallersOf(out[..|out| - 1]) + (if out[|out| - 1].role.Caller? then [out[|out| - 1]] else [])
  }

  function Without(out: seq<Entry>, drop: set<Entry>): seq<Entry> {
    if out == [] then []
    else Without(out[..|out| - 1], drop) + (if out[|out| - 1] in drop then [] else [out[|out| - 1]])
  }

  /** The lightest callers over the cap. */
  function Surplus(out: seq<Entry>, cap: Option<nat>): seq<Entry> {
    if cap.None? || |out| <= cap.value then []
    else
      var order := SortBy(DropsBefore, CallersOf(out));
      order[..Min(|out| - cap.value, |order|)]
  }

  function Elements(s: seq<Entry>): set<Entry> {
    set e | e in s
  }

  function Trimmed(out: seq<Entry>, cap: Option<nat>): seq<Entry> {
    Without(out, Elements(Surplus(out, cap)))
  }

  lemma {:induction false} CallersExactly(out: seq<Entry>, e: Entry)
    ensures e in CallersOf(out) <==> e in out && e.role.Caller?
  {
    if out != [] {
      CallersExactly(out[..|out| - 1], e);
      assert out == out[..|out| - 1] + [out[|out| - 1]];
    }
  }

  lemma {:induction false} CallersDistinct(out: seq<Entry>)
    requires Distinct(out)
    ensures Distinct(CallersOf(out))
  {
    if out != [] {
      var n := |out| - 1;
      assert out == out[..n] + [out[n]];
      DistinctAppend(out[..n], out[n]);
      CallersDistinct(out[..n]);
      CallersExactly(out[..n], out[n]);
      if out[n].role.Caller? { DistinctAppend(CallersOf(out[..n]), out[n]); }
    }
  }

  lemma {:induction false} WithoutExactly(out: seq<Entry>, drop: set<Entry>, e: Entry)
    ensures e in Without(out, drop) <==> e in out && e !in drop
  {
    if out != [] {
      WithoutExactly(out[..|out| - 1], drop, e);
      assert out == out[..|out| - 1] + [out[|out| - 1]];
    }
  }

  lemma {:induction false} WithoutKeepsOrder(before: (Entry, Entry) -> bool, out: seq<Entry>, drop: set<Entry>)
    requires InOrder(before, out)
    ensures InOrder(before, Without(out, drop))
  {
    if out != [] {
      var n := |out| - 1;
      WithoutKeepsOrder(before, out[..n], drop);
      var kept := Without(out[..n], drop);
      forall i | 0 <= i < |kept|
        ensures before(kept[i], out[n])
      {
        WithoutExactly(out[..n], drop, kept[i]);
        assert kept[i] in out[..n];
        var k :| 0 <= k < n && out[..n][k] == kept[i];
        assert before(out[k], out[n]);
      }
    }
  }

  lemma {:induction false} WithoutSize(out: seq<Entry>, drop: set<Entry>)
    requires Distinct(out) && drop <= Elements(out)
    ensures Distinct(Without(out, drop)) && |Without(out, drop)| == |out| - |drop|
  {
    WithoutDistinct(out, drop);
    var kept := Without(out, drop);
    DistinctSize(out);
    DistinctSize(kept);
    forall e
      ensures e in Elements(kept) <==> e in Elements(out) - drop
    {
      WithoutExactly(out, drop, e);
    }
    assert Elements(kept) == Elements(out) - drop;
  }

  lemma {:induction false} WithoutDistinct(out: seq<Entry>, drop: set<Entry>)
    requires Distinct(out)
    ensures Distinct(Without(out, drop))
  {
    if out != [] {
      var n := |out| - 1;
      assert out == out[..n] + [out[n]];
      DistinctAppend(out[..n], out[n]);
      WithoutDistinct(out[..n], drop);
      WithoutExactly(out[..n], drop, out[n]);
      DistinctAppend(Without(out[..n], drop), out[n]);
      assert Without(out[..n], drop) + [] == Without(out[..n], drop);
    }
  }

  lemma DistinctIdsDistinct(es: seq<Entry>)
    requires DistinctIds(es)
    ensures Distinct(es)
  {
  }

  /** What is dropped is a set of callers, as many as the cap asks for or all there are, each no heavier than any caller kept. */
  lemma SurplusExactly(out: seq<Entry>, cap: Option<nat>)
    requires Distinct(out)
    ensures var drop := Surplus(out, cap);
            && Distinct(drop)
            && (forall e :: e in drop ==> e in out && e.role.Caller?)
            && (forall e, f :: e in drop && f in out && f.role.Caller? && f !in drop ==> DropsBefore(e, f))
            && |drop| == (if cap.None? || |out| <= cap.value then 0 else Min(|out| - cap.value, |CallersOf(out)|))
  {
    hide DropsBefore, CallersOf, InOrder, TotalOrder;
    if cap.Some? && |out| > cap.value {
      var callers := CallersOf(out);
      var order := SortBy(DropsBefore, callers);
      CallersDistinct(out);
      SortDistinct(DropsBefore, callers);
      DropsBeforeIsTotal();
      SortInOrder(DropsBefore, callers);
      var n := Min(|out| - cap.value, |order|);
      forall e
        ensures e in order <==> e in out && e.role.Caller?
      {
        SortElements(DropsBefore, callers, e);
        CallersExactly(out, e);
      }
      FirstAreLeast(DropsBefore, order, n);
    }
  }

  lemma FirstAreLeast(before: (Entry, Entry) -> bool, order: seq<Entry>, n: nat)
    requires InOrder(before, order) && n <= |order| && Distinct(order)
    ensures Distinct(order[..n])
    ensures forall e, f :: e in order[..n] && f in order && f !in order[..n] ==> before(e, f)
    ensures forall e :: e in order[..n] ==> e in order
  {
    assert forall k :: 0 <= k < n ==> order[..n][k] == order[k];
    forall e, f | e in order[..n] && f in order && f !in order[..n]
      ensures before(e, f)
    {
      var i :| 0 <= i < n && order[..n][i] == e;
      var j :| 0 <= j < |order| && order[j] == f;
      assert order[i] == e;
    }
  }

  /** The budget drops callers only, the lightest; every seed and dependency stays; the length is the cap or what is not a caller. */
  lemma BudgetExactly(out: seq<Entry>, cap: Option<nat>)
    requires Distinct(out)
    ensures var kept := Trimmed(out, cap);
            && (forall e :: e in kept <==> e in out && e !in Surplus(out, cap))
            && (forall e :: e in out && !e.role.Caller? ==> e in kept)
            && (forall e, f :: e in out && e !in kept && f in kept && f.role.Caller? ==> e.role.Caller? && DropsBefore(e, f))
            && |kept| == |out| - |Surplus(out, cap)|
            && |kept| == (if cap.None? || |out| <= cap.value then |out| else Max(cap.value, |out| - |CallersOf(out)|))
            && Distinct(kept)
  {
    hide DropsBefore, Surplus, CallersOf;
    SurplusExactly(out, cap);
    var drop := Surplus(out, cap);
    assert Elements(drop) <= Elements(out);
    WithoutSize(out, Elements(drop));
    DistinctSize(drop);
    forall e
      ensures e in Trimmed(out, cap) <==> e in out && e !in drop
    {
      WithoutExactly(out, Elements(drop), e);
    }
    CallersFit(out);
  }

  lemma CallersFit(out: seq<Entry>)
    ensures |CallersOf(out)| <= |out|
  {
    if out != [] { CallersFit(out[..|out| - 1]); }
  }

  // ---------------------------------------------------------------- the window

  function Assembled(v: View, cfg: Config, c: Cone): seq<Entry> {
    var ids := SortedKeys(c.depth.Keys);
    ConeEntries(v, c, ids) + (if cfg.includeCallers then Ring(v, Decay(cfg), c, ids) else [])
  }

  function Read(v: View, cfg: Config): seq<Entry> {
    SortBy(ReadsBefore, Assembled(v, cfg, Layered(v, Decay(cfg), cfg.horizon)))
  }

  function Flash(v: View, cfg: Config): Window {
    var cut := Cut(v, Layered(v, Decay(cfg), cfg.horizon), cfg.horizon);
    var out := Read(v, cfg);
    Window(Trimmed(out, cfg.maxNodes), cut == {}, |cut| + |Surplus(out, cfg.maxNodes)|, |v.seeds|)
  }

  lemma SortedKeysDistinct(s: set<Id>)
    ensures Distinct(SortedKeys(s))
  {
    hide Less, SortedKeys;
    var ks := SortedKeys(s);
    forall i, j | 0 <= i < j < |ks|
      ensures ks[i] != ks[j]
    {
      assert Less(ks[i], ks[j]);
      LessIrreflexive(ks[i]);
    }
  }

  lemma AssembledExactly(v: View, cfg: Config, c: Cone)
    ensures var out := Assembled(v, cfg, c);
            && DistinctIds(out)
            && (forall e :: e in out <==>
                 || (e.id in c.depth && e.id in v.nodes && e == ConeEntry(v, c, e.id))
                 || (cfg.includeCallers && Attached(v, Decay(cfg), c, SortedKeys(c.depth.Keys), e)))
  {
    hide ConeEntry, ConeEntries, Ring, Attached, Eligible, SortedKeys, AscendingKeys, DistinctIds, Calls, Decay;
    var ids := SortedKeys(c.depth.Keys);
    SortedKeysDistinct(c.depth.Keys);
    ConeEntriesExactly(v, c, ids);
    var es := ConeEntries(v, c, ids);
    assert forall id :: id in ids <==> id in c.depth;
    if cfg.includeCallers {
      RingExactly(v, Decay(cfg), c, ids);
      var ring := Ring(v, Decay(cfg), c, ids);
      forall e, f | e in es && f in ring
        ensures e.id != f.id
      {
        assert Attached(v, Decay(cfg), c, ids, f);
        AttachedEligible(v, Decay(cfg), c, ids, f);
      }
      DistinctIdsAppend(es, ring);
    } else {
      assert es + [] == es;
    }
  }

  lemma AttachedEligible(v: View, decay: real, c: Cone, ids: seq<Id>, e: Entry)
    requires Attached(v, decay, c, ids, e)
    ensures e.id !in c.depth && e.id in v.nodes && !IsOrphan(v, e.id) && e.role.Caller? && Calls(v, ids, e.id)
  {
    hide IsOrphan, Callers;
  }

  /** The full reading list: distinct ids, in reading order, exactly the cone's residents and the ring. */
  lemma ReadExactly(v: View, cfg: Config)
    ensures var c := Layered(v, Decay(cfg), cfg.horizon);
            var out := Read(v, cfg);
            && Distinct(out) && InOrder(ReadsBefore, out)
            && (forall e, f :: e in out && f in out && e.id == f.id ==> e == f)
            && (forall e :: e in out <==>
                 || (e.id in c.depth && e.id in v.nodes && e == ConeEntry(v, c, e.id))
                 || (cfg.includeCallers && Attached(v, Decay(cfg), c, SortedKeys(c.depth.Keys), e)))
  {
    hide ConeEntry, Attached, SortedKeys, Assembled, Layered, Decay, InOrder, TotalOrder, ReadsBefore;
    var c := Layered(v, Decay(cfg), cfg.horizon);
    var all := Assembled(v, cfg, c);
    AssembledExactly(v, cfg, c);
    DistinctIdsDistinct(all);
    SortDistinct(ReadsBefore, all);
    ReadsBeforeIsTotal();
    SortInOrder(ReadsBefore, all);
    forall e
      ensures e in Read(v, cfg) <==> e in all
    {
      SortElements(ReadsBefore, all, e);
    }
    SameIdSame(all);
  }

  lemma SameIdSame(es: seq<Entry>)
    requires DistinctIds(es)
    ensures forall e, f :: e in es && f in es && e.id == f.id ==> e == f
  {
  }

  /** The seeds and dependencies shown are exactly the resident nodes within the horizon, each at its distance, whatever the budget. */
  lemma WindowShowsTheCone(v: View, cfg: Config, id: Id, d: nat)
    ensures (exists e :: e in Flash(v, cfg).nodes && e.id == id && !e.role.Caller? && e.depth == d) <==>
            id in v.nodes && d <= cfg.horizon && Distance(v, id, d)
    ensures forall e :: e in Flash(v, cfg).nodes && e.id == id && !e.role.Caller? ==>
              (e.role.Seed? <==> id in v.seeds) && id in v.nodes && v.nodes[id] == Node(e.state, e.trust)
  {
    hide Attached, Layered, Decay, Read, Surplus, Trimmed, InOrder, Distinct, Cut, Weight;
    var c := Layered(v, Decay(cfg), cfg.horizon);
    ReadExactly(v, cfg);
    BudgetExactly(Read(v, cfg), cfg.maxNodes);
    ConeIsExact(v, Decay(cfg), cfg.horizon);
    hide Distance;
    forall e | e in Flash(v, cfg).nodes && !e.role.Caller?
      ensures e.id in c.depth && e.id in v.nodes && e == ConeEntry(v, c, e.id)
    {
      if cfg.includeCallers && Attached(v, Decay(cfg), c, SortedKeys(c.depth.Keys), e) {
        AttachedEligible(v, Decay(cfg), c, SortedKeys(c.depth.Keys), e);
      }
    }
    if id in v.nodes && d <= cfg.horizon && Distance(v, id, d) {
      DistanceUnique(v, id, d, c.depth[id]);
      assert ConeEntry(v, c, id) in Flash(v, cfg).nodes;
    }
    if e :| e in Flash(v, cfg).nodes && e.id == id && !e.role.Caller? && e.depth == d {
      assert Distance(v, id, c.depth[id]);
    }
  }

  /** Without a cap the callers shown are exactly the resident non-orphans outside the cone that depend on a cone node. */
  lemma WindowShowsTheRing(v: View, cfg: Config, id: Id)
    requires cfg.includeCallers
    ensures var c := Layered(v, Decay(cfg), cfg.horizon);
            && ((exists e :: e in Flash(v, cfg).nodes && e.id == id && e.role.Caller?) ==>
                 Eligible(v, c, id) && exists cone :: cone in c.depth && id in Callers(v.adj, cone))
            && (cfg.maxNodes.None? && Eligible(v, c, id) && (exists cone :: cone in c.depth && id in Callers(v.adj, cone)) ==>
                 exists e :: e in Flash(v, cfg).nodes && e.id == id && e.role.Caller?)
  {
    hide Layered, Decay, Read, Trimmed, InOrder, Distinct, Cut, SortedKeys, AscendingKeys, Callers, ConeEntry, Attached, Ring;
    var c := Layered(v, Decay(cfg), cfg.horizon);
    var ids := SortedKeys(c.depth.Keys);
    ReadExactly(v, cfg);
    BudgetExactly(Read(v, cfg), cfg.maxNodes);
    RingExactly(v, Decay(cfg), c, ids);
    if e :| e in Flash(v, cfg).nodes && e.id == id && e.role.Caller? {
      if e.id in c.depth && e.id in v.nodes && e == ConeEntry(v, c, e.id) {
        ConeEntryId(v, c, e.id);
      } else {
        AttachedEligible(v, Decay(cfg), c, ids, e);
        var i :| 0 <= i < |ids| && id in Callers(v.adj, ids[i]);
        assert ids[i] in c.depth;
      }
    }
    if cfg.maxNodes.None? && Eligible(v, c, id) && exists cone :: cone in c.depth && id in Callers(v.adj, cone) {
      var cone :| cone in c.depth && id in Callers(v.adj, cone);
      assert cone in ids;
      var i :| 0 <= i < |ids| && ids[i] == cone;
      assert Calls(v, ids, id);
      assert InRing(Ring(v, Decay(cfg), c, ids), id);
      var e :| e in Ring(v, Decay(cfg), c, ids) && e.id == id;
      AttachedEligible(v, Decay(cfg), c, ids, e);
      assert e in Read(v, cfg);
    }
  }

  /** Order, distinctness, length and the count of what is left out. */
  lemma WindowShape(v: View, cfg: Config)
    ensures var w := Flash(v, cfg);
            var out := Read(v, cfg);
            && InOrder(ReadsBefore, w.nodes) && Distinct(w.nodes)
            && (forall e, f :: e in w.nodes && f in w.nodes && e.id == f.id ==> e == f)
            && |w.nodes| == (if cfg.maxNodes.None? || |out| <= cfg.maxNodes.value then |out|
                             else Max(cfg.maxNodes.value, |out| - |CallersOf(out)|))
            && w.omitted == |Cut(v, Layered(v, Decay(cfg), cfg.horizon), cfg.horizon)| + (|out| - |w.nodes|)
            && (forall e, f :: e in out && e !in w.nodes && f in w.nodes && f.role.Caller? ==> e.role.Caller? && DropsBefore(e, f))
  {
    hide Layered, Decay, Read, InOrder, Distinct, Cut, ReadsBefore, DropsBefore, CallersOf, Surplus, Without, ConeEntry, Attached;
    ReadExactly(v, cfg);
    var out := Read(v, cfg);
    BudgetExactly(out, cfg.maxNodes);
    WithoutKeepsOrder(ReadsBefore, out, Elements(Surplus(out, cfg.maxNodes)));
  }
}
