/** A resolver that counts names, as the call resolver does: what an assertion, and what a snapshot, does to its replays. */
module NameResolution {
  import opened Results
  import opened Keys
  import opened Replay
  import opened ReplayExactness
  import opened Snapshots

  /** A bare call in a file, from one of its functions. */
  datatype Call = Call(file: Text, caller: Text, callee: Text)

  /** The edge of a resolved call: from a function of a file to a symbol. */
  datatype CallEdge = CallEdge(file: Text, caller: Text, target: Text)

  /** What a snapshot holds besides the edges: nodes by id, and the text of every file. */
  datatype Program = Program(nodes: set<Text>, texts: map<Text, Text>)

  const COLON: byte := 0x3A
  const SYM: Text := [0x73, 0x79, 0x6D, 0x3A] // "sym:"

  /** What follows the last colon. */
  function NameOf(id: Text): Text {
    if id == [] || id[|id| - 1] == COLON then [] else NameOf(id[..|id| - 1]) + [id[|id| - 1]]
  }

  function SymbolId(file: Text, name: Text): Text {
    SYM + file + [COLON] + name
  }

  /** `n` is the id of a symbol called `name`, in whatever file. */
  predicate Names(n: Text, name: Text) {
    SYM <= n && COLON in n[|SYM|..] && NameOf(n) == name
  }

  /** The caller's own file decides; otherwise the name must be the only one of its kind in the whole program. */
  ghost predicate ResolvesTo(p: Program, c: Call, target: Text) {
    var own := SymbolId(c.file, c.callee);
    if own in p.nodes then target == own
    else target in p.nodes && Names(target, c.callee) && forall n :: n in p.nodes && Names(n, c.callee) ==> n == target
  }

  /** The call edges; a function's call of itself adds none. */
  ghost function CallEdges(p: Program, calls: set<Call>): set<CallEdge> {
    set c, n | c in calls && n in p.nodes && SymbolId(c.file, c.caller) in p.nodes && ResolvesTo(p, c, n) &&
               n != SymbolId(c.file, c.caller) :: CallEdge(c.file, c.caller, n)
  }

  predicate Changes(p: Program, uri: Text, source: Text) {
    uri !in p.texts || p.texts[uri] != source
  }

  /** The prefix of the symbols of a file, all of which go when its text changes. */
  function SymbolsOf(uri: Text): Text {
    SYM + uri + [COLON]
  }

  /** A file's text, one byte a name: the function it defines, then the functions that one calls. */
  function Parsed(p: Program, uri: Text, source: Text): Program {
    if !Changes(p, uri, source) then p
    else
      var others := set n | n in p.nodes && !(uri in p.texts && SymbolsOf(uri) <= n);
      var own := if source == [] then {} else {SymbolId(uri, [source[0]])};
      Program(others + own, p.texts[uri := source])
  }

  /** An edge goes when the node at either end goes. */
  predicate Keeps(p: Program, uri: Text, source: Text, e: CallEdge) {
    Changes(p, uri, source) && uri in p.texts ==> e.file != uri && !(SymbolsOf(uri) <= e.target)
  }

  function CallsOf(uri: Text, source: Text): set<Call> {
    set i | 1 <= i < |source| :: Call(uri, [source[0]], [source[i]])
  }

  /** The calls that await resolution, those of `uri` replaced. */
  function Calls(calls: set<Call>, uri: Text, source: Text): set<Call> {
    (set c | c in calls && c.file != uri) + CallsOf(uri, source)
  }

  /** An assertion creates the nodes it mentions. */
  ghost function NameKernel(): Kernel<Program, set<Call>, CallEdge> {
    Kernel(Program({}, map[]), {},
           (p: Program, uri: Text, source: Text) => Parsed(p, uri, source),
           (p: Program, uri: Text, source: Text) => Changes(p, uri, source),
           (calls: set<Call>, uri: Text, source: Text) => Calls(calls, uri, source),
           (p: Program, uri: Text, source: Text, e: CallEdge) => Keeps(p, uri, source, e),
           (e: CallEdge) => Some(e.file),
           (p: Program, refs: Refs<set<Call>>) => CallEdges(p, refs.facts),
           (p: Program, edges: set<CallEdge>, node: Text, depth: nat) => (p, edges),
           (p: Program, edges: set<CallEdge>, uri: Text) => (p, edges),
           (p: Program, w: seq<real>) => p,
           (p: Program, evidence: Text, claim: Text, supports: bool, w: real) => p.(nodes := p.nodes + {evidence, claim}))
  }

  /** The files of a small program, and a third file that is never ingested. */
  predicate Files(lib: Text, main: Text, other: Text, caller: byte, callee: byte) {
    lib != main && other != lib && other != main && caller != callee && caller != COLON && callee != COLON
  }

  /** One file defines `callee`, one calls it; then evidence about a third file's symbol of the same name. */
  function RivalLog(lib: Text, main: Text, other: Text, caller: byte, callee: byte): seq<Op> {
    var rival := SymbolId(other, [callee]);
    [Ingest(lib, [callee]), Ingest(main, [caller, callee]), Assert(rival, rival, true, 1.0)]
  }

  /** The program after both ingests, in either order. */
  function Ingested(lib: Text, main: Text, caller: byte, callee: byte): Program {
    Program({SymbolId(lib, [callee]), SymbolId(main, [caller])}, map[lib := [callee], main := [caller, callee]])
  }

  function WithRival(lib: Text, main: Text, other: Text, caller: byte, callee: byte): Program {
    var p := Ingested(lib, main, caller, callee);
    p.(nodes := p.nodes + {SymbolId(other, [callee])})
  }

  /** The call that `main` makes, and its edge when it resolves to the library. */
  function TheCall(main: Text, caller: byte, callee: byte): Call {
    Call(main, [caller], [callee])
  }

  function TheEdge(lib: Text, main: Text, caller: byte, callee: byte): CallEdge {
    CallEdge(main, [caller], SymbolId(lib, [callee]))
  }

  lemma NamesItsSymbol(file: Text, name: byte)
    requires name != COLON
    ensures forall x :: Names(SymbolId(file, [name]), x) <==> x == [name]
  {
    var id := SymbolId(file, [name]);
    var stem := SYM + file + [COLON];
    assert id == stem + [name] && id[..|id| - 1] == stem;
    assert NameOf(stem) == [] && NameOf(id) == [name];
    assert id[|SYM|..][|file|] == COLON && SYM <= id;
  }

  lemma SymbolsDiffer(f: Text, a: byte, g: Text, b: byte)
    ensures SymbolId(f, [a]) == SymbolId(g, [b]) <==> f == g && a == b
  {
    var x, y := SymbolId(f, [a]), SymbolId(g, [b]);
    assert x[|SYM|..|x| - 2] == f && x[|x| - 1] == a;
    assert y[|SYM|..|y| - 2] == g && y[|y| - 1] == b;
  }

  /** What tells the three symbols and the caller's own candidate apart. */
  lemma SymbolsApart(lib: Text, main: Text, other: Text, caller: byte, callee: byte)
    requires Files(lib, main, other, caller, callee)
    ensures var own, x, y, z := SymbolId(main, [callee]), SymbolId(lib, [callee]), SymbolId(other, [callee]), SymbolId(main, [caller]);
            && own != x && own != y && own != z && x != y && x != z
            && Names(x, [callee]) && Names(y, [callee]) && !Names(z, [callee])
  {
    NamesItsSymbol(lib, callee);
    NamesItsSymbol(other, callee);
    NamesItsSymbol(main, caller);
    SymbolsDiffer(main, callee, lib, callee);
    SymbolsDiffer(main, callee, other, callee);
    SymbolsDiffer(main, callee, main, caller);
    SymbolsDiffer(lib, callee, other, callee);
    SymbolsDiffer(lib, callee, main, caller);
    hide Names, SymbolId;
  }

  /** One definition in the program: the call resolves to it, and to nothing else. */
  lemma OnlyDefinitionResolves(p: Program, c: Call, x: Text, z: Text)
    requires p.nodes == {x, z} && z == SymbolId(c.file, c.caller) && x != z
    requires SymbolId(c.file, c.callee) !in p.nodes && Names(x, c.callee) && !Names(z, c.callee)
    ensures CallEdges(p, {c}) == {CallEdge(c.file, c.caller, x)}
  {
    hide Names, SymbolId;
    assert ResolvesTo(p, c, x);
  }

  lemma TwoDefinitionsDoNot(p: Program, c: Call, x: Text, y: Text)
    requires x in p.nodes && y in p.nodes && x != y
    requires SymbolId(c.file, c.callee) !in p.nodes && Names(x, c.callee) && Names(y, c.callee)
    ensures CallEdges(p, {c}) == {}
  {
    hide Names, SymbolId;
    forall n
      ensures !ResolvesTo(p, c, n)
    {
    }
  }

  /** While the rival is unknown the call resolves to the library; with the rival it resolves to nothing. */
  lemma RivalUnresolves(lib: Text, main: Text, other: Text, caller: byte, callee: byte)
    requires Files(lib, main, other, caller, callee)
    ensures CallEdges(Ingested(lib, main, caller, callee), {TheCall(main, caller, callee)}) == {TheEdge(lib, main, caller, callee)}
    ensures CallEdges(WithRival(lib, main, other, caller, callee), {TheCall(main, caller, callee)}) == {}
  {
    SymbolsApart(lib, main, other, caller, callee);
    hide Names, SymbolId, CallEdges;
    var c := TheCall(main, caller, callee);
    var x, y, z := SymbolId(lib, [callee]), SymbolId(other, [callee]), SymbolId(main, [caller]);
    OnlyDefinitionResolves(Ingested(lib, main, caller, callee), c, x, z);
    TwoDefinitionsDoNot(WithRival(lib, main, other, caller, callee), c, x, y);
  }

  // ---------------------------------------------------------------- both files, in either order

  type Edges = Memory<Program, set<Call>, CallEdge>

  /** The memory when both files are ingested, resolution still due. */
  function BothIngested(lib: Text, main: Text, caller: byte, callee: byte): Edges {
    Memory(Ingested(lib, main, caller, callee), {}, Refs({lib, main}, {TheCall(main, caller, callee)}), true)
  }

  lemma TextCalls(lib: Text, main: Text, caller: byte, callee: byte)
    ensures CallsOf(lib, [callee]) == {} && CallsOf(main, [caller, callee]) == {TheCall(main, caller, callee)}
  {
    assert [caller, callee][1] == callee;
    assert TheCall(main, caller, callee) in CallsOf(main, [caller, callee]);
  }

  lemma IngestNew(m: Edges, uri: Text, source: Text)
    requires uri !in m.base.texts && m.edges == {} && source != [] && forall c :: c in m.refs.facts ==> c.file != uri
    ensures IngestDeferred(NameKernel(), m, uri, source) ==
            Memory(Program(m.base.nodes + {SymbolId(uri, [source[0]])}, m.base.texts[uri := source]), {},
                   Refs(m.refs.files + {uri}, m.refs.facts + CallsOf(uri, source)), true)
  {
    hide SymbolId, CallsOf;
    var r := IngestDeferred(NameKernel(), m, uri, source);
    assert r.edges == {};
    assert Changes(m.base, uri, source);
    assert (set n | n in m.base.nodes && !(uri in m.base.texts && SymbolsOf(uri) <= n)) == m.base.nodes;
    assert (set c | c in m.refs.facts && c.file != uri) == m.refs.facts;
  }

  function LibIngested(lib: Text, callee: byte): Edges {
    Memory(Program({SymbolId(lib, [callee])}, map[lib := [callee]]), {}, Refs({lib}, {}), true)
  }

  function MainIngested(main: Text, caller: byte, callee: byte): Edges {
    Memory(Program({SymbolId(main, [caller])}, map[main := [caller, callee]]), {}, Refs({main}, {TheCall(main, caller, callee)}), true)
  }

  lemma IngestLib(lib: Text, callee: byte)
    ensures IngestDeferred(NameKernel(), Empty(NameKernel()), lib, [callee]) == LibIngested(lib, callee)
  {
    var m := Empty(NameKernel());
    IngestNew(m, lib, [callee]);
    TextCalls(lib, lib, callee, callee);
    assert m.base.nodes + {SymbolId(lib, [callee])} == {SymbolId(lib, [callee])} && m.refs.files + {lib} == {lib};
    assert m.refs.facts + {} == {};
    hide SymbolId, CallsOf, IngestDeferred;
  }

  lemma IngestMain(main: Text, caller: byte, callee: byte)
    ensures IngestDeferred(NameKernel(), Empty(NameKernel()), main, [caller, callee]) == MainIngested(main, caller, callee)
  {
    var m := Empty(NameKernel());
    IngestNew(m, main, [caller, callee]);
    TextCalls(main, main, caller, callee);
    assert m.base.nodes + {SymbolId(main, [caller])} == {SymbolId(main, [caller])} && m.refs.files + {main} == {main};
    assert m.refs.facts + {TheCall(main, caller, callee)} == {TheCall(main, caller, callee)};
    hide SymbolId, CallsOf, IngestDeferred;
  }

  /** The other file after the first, whichever it was, and after a snapshot of the first. */
  lemma IngestSecond(lib: Text, main: Text, caller: byte, callee: byte, refs: Refs<set<Call>>, pending: bool)
    requires lib != main && forall c :: c in refs.facts ==> c.file == main
    ensures var k := NameKernel();
            && IngestDeferred(k, LibIngested(lib, callee).(pending := pending), main, [caller, callee]) == BothIngested(lib, main, caller, callee)
            && IngestDeferred(k, MainIngested(main, caller, callee).(refs := refs, pending := pending), lib, [callee])
               == BothIngested(lib, main, caller, callee).(refs := Refs(refs.files + {lib}, refs.facts))
  {
    IngestNew(LibIngested(lib, callee).(pending := pending), main, [caller, callee]);
    IngestNew(MainIngested(main, caller, callee).(refs := refs, pending := pending), lib, [callee]);
    TextCalls(lib, main, caller, callee);
    hide SymbolId, CallsOf, IngestDeferred;
    var x, z, c := SymbolId(lib, [callee]), SymbolId(main, [caller]), TheCall(main, caller, callee);
    assert {x} + {z} == {x, z} == {z} + {x} && {lib} + {main} == {lib, main} && {} + {c} == {c} && refs.facts + {} == refs.facts;
    assert map[lib := [callee]][main := [caller, callee]] == map[main := [caller, callee]][lib := [callee]];
  }

  /** With the references of `main` at hand the edges are those of its call; without, they stay as they are. */
  lemma RedoEdges(p: Program, files: set<Text>, c: Call, edges: set<CallEdge>)
    requires edges != {} ==> c.file in files && forall e :: e in edges ==> e.file == c.file
    ensures c.file in files ==> Redo(NameKernel(), p, Refs(files, {c}), edges) == CallEdges(p, {c})
    ensures edges == {} ==> Redo(NameKernel(), p, Refs(files, {}), edges) == {}
  {
    hide ResolvesTo, SymbolId;
  }

  lemma NoDefinitionResolvesTo(lib: Text, main: Text, other: Text, caller: byte, callee: byte)
    requires Files(lib, main, other, caller, callee)
    ensures CallEdges(MainIngested(main, caller, callee).base, {TheCall(main, caller, callee)}) == {}
  {
    SymbolsApart(lib, main, other, caller, callee);
    hide Names, SymbolId;
  }

  // ---------------------------------------------------------------- an assertion after the ingests

  lemma ApplyOne<B, F, E>(k: Kernel<B, F, E>, r: Replaying<B, F, E>, a: Op)
    ensures ApplyAll(k, r, [a]) == ApplyOp(k, r, a)
  {
    assert [a][..0] == [];
  }

  lemma ApplyTwo<B, F, E>(k: Kernel<B, F, E>, r: Replaying<B, F, E>, a: Op, b: Op)
    ensures ApplyAll(k, r, [a, b]) == ApplyOp(k, ApplyOp(k, r, a), b)
  {
    hide ApplyOp;
    assert [a, b][..1] == [a];
    ApplyOne(k, r, a);
  }

  lemma ApplyThree<B, F, E>(k: Kernel<B, F, E>, r: Replaying<B, F, E>, a: Op, b: Op, c: Op)
    ensures ApplyAll(k, r, [a, b, c]) == ApplyOp(k, ApplyOp(k, ApplyOp(k, r, a), b), c)
  {
    hide ApplyOp;
    assert [a, b, c][..2] == [a, b];
    ApplyTwo(k, r, a, b);
  }

  lemma LiveThree<B, F, E>(k: Kernel<B, F, E>, m: Memory<B, F, E>, a: Op, b: Op, c: Op)
    ensures Live(k, m, [a, b, c]) == LiveStep(k, LiveStep(k, LiveStep(k, m, a), b), c)
  {
    hide LiveStep;
    assert [a, b, c][..2] == [a, b] && [a, b][..1] == [a] && [a][..0] == [];
    assert Live(k, m, [a]) == LiveStep(k, m, a) && Live(k, m, [a, b]) == LiveStep(k, Live(k, m, [a]), b);
  }

  lemma QuietTwo<B, F, E>(k: Kernel<B, F, E>, m: Memory<B, F, E>, a: Op, b: Op)
    requires !IsEdit(a) && !IsEdit(b)
    ensures Quiet(k, m, [a, b])
  {
    hide ApplyAll, PendingIngest;
    assert [a, b][..1] == [a] && [a][..0] == [];
    assert Quiet(k, m, [a]);
  }

  lemma RivalLive(lib: Text, main: Text, other: Text, caller: byte, callee: byte)
    requires Files(lib, main, other, caller, callee)
    ensures var k := NameKernel();
            Live(k, Empty(k), RivalLog(lib, main, other, caller, callee)).edges == {TheEdge(lib, main, caller, callee)}
  {
    var k := NameKernel();
    var ops := RivalLog(lib, main, other, caller, callee);
    var both := BothIngested(lib, main, caller, callee);
    IngestLib(lib, callee);
    LibAlone(lib, main, caller, callee);
    RivalUnresolves(lib, main, other, caller, callee);
    RedoEdges(both.base, both.refs.files, TheCall(main, caller, callee), {});
    hide CallEdges, Redo, IngestDeferred, SymbolId, Ingested, NameKernel, LibIngested;
    LiveThree(k, Empty(k), ops[0], ops[1], ops[2]);
  }

  lemma RivalReplay(lib: Text, main: Text, other: Text, caller: byte, callee: byte)
    requires Files(lib, main, other, caller, callee)
    ensures var k := NameKernel();
            Replayed(k, Empty(k), RivalLog(lib, main, other, caller, callee)).edges == {}
  {
    var k := NameKernel();
    var ops := RivalLog(lib, main, other, caller, callee);
    var both, q := BothIngested(lib, main, caller, callee), WithRival(lib, main, other, caller, callee);
    IngestLib(lib, callee);
    IngestSecond(lib, main, caller, callee, NoRefs(k), true);
    RivalUnresolves(lib, main, other, caller, callee);
    RedoEdges(q, both.refs.files, TheCall(main, caller, callee), {});
    hide CallEdges, Redo, IngestDeferred, SymbolId, Ingested;
    AssertedRival(lib, main, other, caller, callee);
    hide NameKernel;
    ApplyThree(k, Replaying(Empty(k), false), ops[0], ops[1], ops[2]);
  }

  lemma AssertedRival(lib: Text, main: Text, other: Text, caller: byte, callee: byte)
    ensures var k := NameKernel();
            EditBase(k, Ingested(lib, main, caller, callee), RivalLog(lib, main, other, caller, callee)[2])
            == WithRival(lib, main, other, caller, callee)
  {
    hide SymbolId, Ingested;
    var p, rival := Ingested(lib, main, caller, callee), SymbolId(other, [callee]);
    assert p.nodes + {rival, rival} == p.nodes + {rival};
  }

  lemma RivalFromSnapshot(lib: Text, main: Text, other: Text, caller: byte, callee: byte)
    requires Files(lib, main, other, caller, callee)
    ensures var k := NameKernel();
            var ops := RivalLog(lib, main, other, caller, callee);
            Replayed(k, FromSnapshot(k, Empty(k), [ops[0], ops[1]]), [ops[2]]).edges == {TheEdge(lib, main, caller, callee)}
  {
    var k := NameKernel();
    var ops := RivalLog(lib, main, other, caller, callee);
    var both := BothIngested(lib, main, caller, callee);
    IngestLib(lib, callee);
    IngestSecond(lib, main, caller, callee, NoRefs(k), true);
    RivalUnresolves(lib, main, other, caller, callee);
    RedoEdges(both.base, both.refs.files, TheCall(main, caller, callee), {});
    hide CallEdges, Redo, IngestDeferred, SymbolId, Ingested, NameKernel, LibIngested;
    ApplyTwo(k, Replaying(Empty(k), false), ops[0], ops[1]);
    var start := Memory(both.base, {TheEdge(lib, main, caller, callee)}, NoRefs(k), false);
    assert FromSnapshot(k, Empty(k), [ops[0], ops[1]]) == start;
    ApplyOne(k, Replaying(start, false), ops[2]);
  }

  /** The library by itself resolves to nothing; what comes next starts from it, resolved or not. */
  lemma LibAlone(lib: Text, main: Text, caller: byte, callee: byte)
    requires lib != main
    ensures var k := NameKernel();
            var l := LibIngested(lib, callee);
            && Resolve(k, l) == l.(pending := false)
            && IngestDeferred(k, Resolve(k, l), main, [caller, callee]) == BothIngested(lib, main, caller, callee)
  {
    RedoEdges(LibIngested(lib, callee).base, {lib}, TheCall(main, caller, callee), {});
    IngestSecond(lib, main, caller, callee, NoRefs(NameKernel()), false);
    hide Redo, SymbolId, IngestDeferred;
  }

  /** Such an assertion right after the ingests makes replay and live differ: live keeps the call's edge, replay drops it. */
  lemma AssertionsCanBreakReplay(lib: Text, main: Text, other: Text, caller: byte, callee: byte)
    requires Files(lib, main, other, caller, callee)
    ensures var k := NameKernel();
            var ops := RivalLog(lib, main, other, caller, callee);
            && Live(k, Empty(k), ops).edges == {TheEdge(lib, main, caller, callee)}
            && Replayed(k, Empty(k), ops).edges == {}
            && !Quiet(k, Empty(k), ops)
  {
    hide Live, Replayed, Quiet;
    RivalLive(lib, main, other, caller, callee);
    RivalReplay(lib, main, other, caller, callee);
    var k, ops := NameKernel(), RivalLog(lib, main, other, caller, callee);
    if Quiet(k, Empty(k), ops) {
      ReplayEqualsLive(k, Empty(k), ops);
    }
  }

  /** And folding the ingests into a snapshot changes what the same log replays to. */
  lemma SnapshotsCanChangeReplay(lib: Text, main: Text, other: Text, caller: byte, callee: byte)
    requires Files(lib, main, other, caller, callee)
    ensures var k := NameKernel();
            var ops := RivalLog(lib, main, other, caller, callee);
            && Replayed(k, FromSnapshot(k, Empty(k), ops[..2]), ops[2..]).edges != Replayed(k, Empty(k), ops).edges
            && !KeepsReplays(k, Empty(k), ops[..2], ops[2..])
  {
    hide Live, Replayed, KeepsReplays, FromSnapshot;
    RivalReplay(lib, main, other, caller, callee);
    RivalFromSnapshot(lib, main, other, caller, callee);
    var k := NameKernel();
    var ops := RivalLog(lib, main, other, caller, callee);
    SnapshotSufficesExactly(k, Empty(k), ops[..2], ops[2..]);
    assert ops[2..][..1] == ops[2..] == [ops[2]] && ops[..2] + ops[2..] == ops && ops[..2] == [ops[0], ops[1]];
  }

  // ---------------------------------------------------------------- a snapshot between the ingests

  /** A call whose target is ingested after it. */
  function ForwardLog(lib: Text, main: Text, caller: byte, callee: byte): seq<Op> {
    [Ingest(main, [caller, callee]), Ingest(lib, [callee])]
  }

  lemma ForwardInFull(lib: Text, main: Text, other: Text, caller: byte, callee: byte)
    requires Files(lib, main, other, caller, callee)
    ensures var k := NameKernel();
            var ops := ForwardLog(lib, main, caller, callee);
            && Quiet(k, Empty(k), ops)
            && Replayed(k, Empty(k), ops).edges == {TheEdge(lib, main, caller, callee)}
  {
    var k := NameKernel();
    var ops := ForwardLog(lib, main, caller, callee);
    var first, both := MainIngested(main, caller, callee), BothIngested(lib, main, caller, callee);
    IngestMain(main, caller, callee);
    IngestSecond(lib, main, caller, callee, first.refs, true);
    RivalUnresolves(lib, main, other, caller, callee);
    RedoEdges(both.base, {lib, main}, TheCall(main, caller, callee), {});
    hide CallEdges, Redo, IngestDeferred, SymbolId, Ingested, NameKernel;
    assert {main} + {lib} == {lib, main};
    ApplyTwo(k, Replaying(Empty(k), false), ops[0], ops[1]);
    QuietTwo(k, Empty(k), ops[0], ops[1]);
  }

  lemma ForwardFromSnapshot(lib: Text, main: Text, other: Text, caller: byte, callee: byte)
    requires Files(lib, main, other, caller, callee)
    ensures var k := NameKernel();
            var ops := ForwardLog(lib, main, caller, callee);
            Replayed(k, FromSnapshot(k, Empty(k), [ops[0]]), [ops[1]]).edges == {}
  {
    var k := NameKernel();
    var ops := ForwardLog(lib, main, caller, callee);
    var first, both := MainIngested(main, caller, callee), BothIngested(lib, main, caller, callee);
    var c, start := TheCall(main, caller, callee), Memory(first.base, {}, NoRefs(k), false);
    IngestMain(main, caller, callee);
    IngestSecond(lib, main, caller, callee, NoRefs(k), false);
    NoDefinitionResolvesTo(lib, main, other, caller, callee);
    RedoEdges(first.base, {main}, c, {});
    RedoEdges(both.base, {lib}, c, {});
    hide CallEdges, Redo, IngestDeferred, SymbolId, Ingested;
    assert {} + {lib} == {lib};
    ApplyOne(k, Replaying(Empty(k), false), ops[0]);
    assert FromSnapshot(k, Empty(k), [ops[0]]) == start;
    ApplyOne(k, Replaying(start, false), ops[1]);
  }

  /**
   * Without a single edit in the log: the snapshot forgets the call, so the ingest that defines its
   * target no longer gives it an edge, while the live memory and the full replay have it.
   */
  lemma SnapshotsForgetCalls(lib: Text, main: Text, other: Text, caller: byte, callee: byte)
    requires Files(lib, main, other, caller, callee)
    ensures var k := NameKernel();
            var ops := ForwardLog(lib, main, caller, callee);
            && Quiet(k, Empty(k), ops)
            && Live(k, Empty(k), ops).edges == Replayed(k, Empty(k), ops).edges == {TheEdge(lib, main, caller, callee)}
            && Replayed(k, FromSnapshot(k, Empty(k), ops[..1]), ops[1..]).edges == {}
            && !KeepsReplays(k, Empty(k), ops[..1], ops[1..])
  {
    hide Live, Replayed, KeepsReplays, FromSnapshot, Quiet;
    ForwardInFull(lib, main, other, caller, callee);
    ForwardFromSnapshot(lib, main, other, caller, callee);
    var k := NameKernel();
    var ops := ForwardLog(lib, main, caller, callee);
    ReplayEqualsLive(k, Empty(k), ops);
    SnapshotSufficesExactly(k, Empty(k), ops[..1], ops[1..]);
    assert ops[1..][..1] == ops[1..] == [ops[1]] && ops[..1] + ops[1..] == ops && ops[..1] == [ops[0]];
  }
}
