/** The tamper-evident chain over a timeline: each link commits to its predecessor, its step and its op. */
module HashChain {
  import opened Results
  import opened Keys
  import opened Replay

  type Hash = Bytes

  /** SHA-256 of predecessor, absolute step and op. */
  type LinkHash = (Hash, nat, Op) -> Hash

  const GENESIS: Hash := [0x47, 0x45, 0x4E, 0x45, 0x53, 0x49, 0x53]

  function Prev(anchor: Hash, chain: seq<Hash>, i: nat): Hash
    requires i <= |chain|
  {
    if i == 0 then anchor else chain[i - 1]
  }

  predicate LinkHolds(h: LinkHash, anchor: Hash, floor: nat, ops: seq<Op>, chain: seq<Hash>, i: nat)
    requires i < |ops| && i < |chain|
  {
    chain[i] == h(Prev(anchor, chain, i), floor + i, ops[i])
  }

  /** Every op has its link, and every link recomputes. */
  ghost predicate Linked(h: LinkHash, anchor: Hash, floor: nat, ops: seq<Op>, chain: seq<Hash>) {
    && |ops| == |chain|
    && forall i :: 0 <= i < |ops| ==> LinkHolds(h, anchor, floor, ops, chain, i)
  }

  /** The last link, or the anchor of an empty timeline. */
  function Head(anchor: Hash, chain: seq<Hash>): Hash {
    Prev(anchor, chain, |chain|)
  }

  /** The whole chain, recomputed. */
  function ChainOver(h: LinkHash, anchor: Hash, floor: nat, ops: seq<Op>): (chain: seq<Hash>)
    ensures |chain| == |ops|
  {
    if ops == [] then []
    else
      var n := |ops| - 1;
      var c := ChainOver(h, anchor, floor, ops[..n]);
      c + [h(Head(anchor, c), floor + n, ops[n])]
  }

  lemma {:induction false} ChainIsUnique(h: LinkHash, anchor: Hash, floor: nat, ops: seq<Op>, chain: seq<Hash>)
    ensures Linked(h, anchor, floor, ops, chain) <==> chain == ChainOver(h, anchor, floor, ops)
    decreases |ops|
  {
    if ops != [] && |chain| == |ops| {
      var n := |ops| - 1;
      ChainIsUnique(h, anchor, floor, ops[..n], chain[..n]);
      assert chain == chain[..n] + [chain[n]];
      if Linked(h, anchor, floor, ops, chain) {
        forall i | 0 <= i < n
          ensures LinkHolds(h, anchor, floor, ops[..n], chain[..n], i)
        {
          assert LinkHolds(h, anchor, floor, ops, chain, i);
        }
        assert LinkHolds(h, anchor, floor, ops, chain, n);
      }
      if chain == ChainOver(h, anchor, floor, ops) {
        forall i | 0 <= i < |ops|
          ensures LinkHolds(h, anchor, floor, ops, chain, i)
        {
          if i < n { assert LinkHolds(h, anchor, floor, ops[..n], chain[..n], i); }
        }
      }
    }
  }

  /** The chain of a prefix is a prefix of the chain. */
  lemma LinkedPrefix(h: LinkHash, anchor: Hash, floor: nat, ops: seq<Op>, chain: seq<Hash>, n: nat)
    requires Linked(h, anchor, floor, ops, chain) && n <= |ops|
    ensures Linked(h, anchor, floor, ops[..n], chain[..n])
  {
    forall i | 0 <= i < n
      ensures LinkHolds(h, anchor, floor, ops[..n], chain[..n], i)
    {
      assert LinkHolds(h, anchor, floor, ops, chain, i);
    }
  }

  /** What remains after cutting `n` ops off the front is a chain from the last link cut. */
  lemma LinkedSuffix(h: LinkHash, anchor: Hash, floor: nat, ops: seq<Op>, chain: seq<Hash>, n: nat)
    requires Linked(h, anchor, floor, ops, chain) && n <= |ops|
    ensures Linked(h, Prev(anchor, chain, n), floor + n, ops[n..], chain[n..])
    ensures Head(Prev(anchor, chain, n), chain[n..]) == Head(anchor, chain)
  {
    var a, f, os, cs := Prev(anchor, chain, n), floor + n, ops[n..], chain[n..];
    forall i | 0 <= i < |os|
      ensures LinkHolds(h, a, f, os, cs, i)
    {
      assert LinkHolds(h, anchor, floor, ops, chain, n + i);
    }
  }

  lemma LinkedAppend(h: LinkHash, anchor: Hash, floor: nat, ops: seq<Op>, chain: seq<Hash>, more: seq<Op>, links: seq<Hash>)
    requires Linked(h, anchor, floor, ops, chain)
    requires Linked(h, Head(anchor, chain), floor + |ops|, more, links)
    ensures Linked(h, anchor, floor, ops + more, chain + links)
  {
    var os, cs := ops + more, chain + links;
    forall i | 0 <= i < |os|
      ensures LinkHolds(h, anchor, floor, os, cs, i)
    {
      if i < |ops| {
        assert LinkHolds(h, anchor, floor, ops, chain, i);
      } else {
        assert LinkHolds(h, Head(anchor, chain), floor + |ops|, more, links, i - |ops|);
      }
    }
  }

  // ---------------------------------------------------------------- agreement

  /** A stretch of history: what came before it, its first step, its ops and their links. */
  datatype Timeline = Timeline(anchor: Hash, floor: nat, ops: seq<Op>, chain: seq<Hash>)

  ghost predicate Verifies(h: LinkHash, s: Timeline) {
    Linked(h, s.anchor, s.floor, s.ops, s.chain)
  }

  /** Position `i` holds an op and its link. */
  predicate Within(s: Timeline, i: int) {
    0 <= i < |s.ops| && i < |s.chain|
  }

  /** What the link at `i` hashes. */
  function Hashed(s: Timeline, i: nat): (Hash, nat, Op)
    requires Within(s, i)
  {
    (Prev(s.anchor, s.chain, i), s.floor + i, s.ops[i])
  }

  function LinkOf(h: LinkHash, x: (Hash, nat, Op)): Hash {
    h(x.0, x.1, x.2)
  }

  /** No two different things hashed in the two timelines collide: a finite condition on these two. */
  ghost predicate NoCollision(h: LinkHash, s: Timeline, t: Timeline) {
    forall i, j :: Within(s, i) && Within(t, j) && LinkOf(h, Hashed(s, i)) == LinkOf(h, Hashed(t, j)) ==> Hashed(s, i) == Hashed(t, j)
  }

  /** A shared link pins the step, the op and the predecessor. */
  lemma SharedLink(h: LinkHash, s: Timeline, i: nat, t: Timeline, j: nat)
    requires NoCollision(h, s, t) && Verifies(h, s) && Verifies(h, t)
    requires i < |s.chain| && j < |t.chain| && s.chain[i] == t.chain[j]
    ensures s.floor + i == t.floor + j && s.ops[i] == t.ops[j] && Prev(s.anchor, s.chain, i) == Prev(t.anchor, t.chain, j)
  {
    assert LinkHolds(h, s.anchor, s.floor, s.ops, s.chain, i) && LinkHolds(h, t.anchor, t.floor, t.ops, t.chain, j);
    assert Within(s, i) && Within(t, j) && LinkOf(h, Hashed(s, i)) == s.chain[i] && LinkOf(h, Hashed(t, j)) == t.chain[j];
  }

  /** A shared link is shared at the same step, and so are the `n` ops and links that end there. */
  lemma {:induction false} SharedTail(h: LinkHash, s: Timeline, i: nat, t: Timeline, j: nat, n: nat)
    requires NoCollision(h, s, t) && Verifies(h, s) && Verifies(h, t)
    requires i < |s.chain| && j < |t.chain| && s.chain[i] == t.chain[j] && n <= i + 1 && n <= j + 1
    ensures s.floor + i == t.floor + j
    ensures s.ops[i + 1 - n..i + 1] == t.ops[j + 1 - n..j + 1]
    ensures s.chain[i + 1 - n..i + 1] == t.chain[j + 1 - n..j + 1]
    ensures Prev(s.anchor, s.chain, i + 1 - n) == Prev(t.anchor, t.chain, j + 1 - n)
    decreases n
  {
    hide NoCollision, LinkHolds;
    SharedLink(h, s, i, t, j);
    if n > 1 {
      SharedTail(h, s, i - 1, t, j - 1, n - 1);
      assert s.ops[i + 1 - n..i + 1] == s.ops[i + 1 - n..i] + [s.ops[i]] && t.ops[j + 1 - n..j + 1] == t.ops[j + 1 - n..j] + [t.ops[j]];
      assert s.chain[i + 1 - n..i + 1] == s.chain[i + 1 - n..i] + [s.chain[i]] && t.chain[j + 1 - n..j + 1] == t.chain[j + 1 - n..j] + [t.chain[j]];
    }
  }

  /** Two verified chains from the same step that share the link at one step hold the same ops up to that step. */
  lemma ChainsAgree(h: LinkHash, s: Timeline, t: Timeline, i: nat)
    requires NoCollision(h, s, t) && Verifies(h, s) && Verifies(h, t) && s.floor == t.floor
    requires i < |s.chain| && i < |t.chain| && s.chain[i] == t.chain[i]
    ensures s.anchor == t.anchor && s.ops[..i + 1] == t.ops[..i + 1] && s.chain[..i + 1] == t.chain[..i + 1]
  {
    SharedTail(h, s, i, t, i, i + 1);
    hide NoCollision, LinkHolds;
  }

  /**
   * The head commits to the whole timeline, wherever its floor: timelines that verify under the
   * same head end at the same step and share everything both retain, down to the link before it.
   */
  lemma HeadsShareTheTail(h: LinkHash, s: Timeline, t: Timeline)
    requires NoCollision(h, s, t) && Verifies(h, s) && Verifies(h, t)
    requires s.chain != [] && t.chain != [] && Head(s.anchor, s.chain) == Head(t.anchor, t.chain)
    ensures s.floor + |s.ops| == t.floor + |t.ops|
    ensures var n := if |s.ops| <= |t.ops| then |s.ops| else |t.ops|;
            && s.ops[|s.ops| - n..] == t.ops[|t.ops| - n..]
            && s.chain[|s.chain| - n..] == t.chain[|t.chain| - n..]
            && Prev(s.anchor, s.chain, |s.chain| - n) == Prev(t.anchor, t.chain, |t.chain| - n)
  {
    var n := if |s.ops| <= |t.ops| then |s.ops| else |t.ops|;
    SharedTail(h, s, |s.chain| - 1, t, |t.chain| - 1, n);
    hide NoCollision, LinkHolds;
  }

  /** An edited, reordered or shortened log that still verifies from the same step under the same head is the same log. */
  lemma HeadCommits(h: LinkHash, s: Timeline, t: Timeline)
    requires NoCollision(h, s, t) && Verifies(h, s) && Verifies(h, t) && s.floor == t.floor
    requires s.chain != [] && t.chain != [] && Head(s.anchor, s.chain) == Head(t.anchor, t.chain)
    ensures s == t
  {
    HeadsShareTheTail(h, s, t);
    hide NoCollision, LinkHolds;
    assert s.ops[0..] == s.ops && t.ops[0..] == t.ops && s.chain[0..] == s.chain && t.chain[0..] == t.chain;
  }

  /** The links of a log are all different and none is the genesis marker. */
  ghost predicate DistinctLinks(h: LinkHash, ops: seq<Op>) {
    var chain := ChainOver(h, GENESIS, 0, ops);
    && (forall i, j :: 0 <= i < j < |chain| ==> chain[i] != chain[j])
    && (forall i :: 0 <= i < |chain| ==> chain[i] != GENESIS)
  }

  // ---------------------------------------------------------------- such hashes exist

  /** `n` in unary. */
  function Unary(n: nat): Bytes {
    if n == 0 then [0] else [1] + Unary(n - 1)
  }

  function IndexIn(pool: seq<Op>, op: Op): (n: nat)
    ensures op in pool ==> n < |pool| && pool[n] == op
  {
    if pool == [] || pool[0] == op then 0 else 1 + IndexIn(pool[1..], op)
  }

  ghost predicate Over(ops: seq<Op>, pool: seq<Op>) {
    forall o :: o in ops ==> o in pool
  }

  function PoolHash(pool: seq<Op>): LinkHash {
    (p, s, o) => Unary(s) + Unary(IndexIn(pool, o)) + p
  }

  lemma {:induction false} UnaryIsPrefixFree(m: nat, a: Bytes, n: nat, b: Bytes)
    requires Unary(m) + a == Unary(n) + b
    ensures m == n && a == b
  {
    var x, y := Unary(m) + a, Unary(n) + b;
    assert x[0] == (if m == 0 then 0 else 1) && y[0] == (if n == 0 then 0 else 1);
    if m == 0 {
      assert x[1..] == a && y[1..] == b;
    } else {
      assert x[1..] == Unary(m - 1) + a && y[1..] == Unary(n - 1) + b;
      UnaryIsPrefixFree(m - 1, a, n - 1, b);
    }
  }

  lemma PoolHashTellsApart(pool: seq<Op>, x: (Hash, nat, Op), y: (Hash, nat, Op))
    requires x.2 in pool && y.2 in pool && LinkOf(PoolHash(pool), x) == LinkOf(PoolHash(pool), y)
    ensures x == y
  {
    hide Unary;
    var i, j := IndexIn(pool, x.2), IndexIn(pool, y.2);
    assert Unary(x.1) + (Unary(i) + x.0) == Unary(x.1) + Unary(i) + x.0;
    assert Unary(y.1) + (Unary(j) + y.0) == Unary(y.1) + Unary(j) + y.0;
    UnaryIsPrefixFree(x.1, Unary(i) + x.0, y.1, Unary(j) + y.0);
    UnaryIsPrefixFree(i, x.0, j, y.0);
  }

  /** Over the ops of `pool` no two timelines collide under `h`, and the links of a log are distinct. */
  ghost predicate TellsApart(h: LinkHash, pool: seq<Op>) {
    && (forall s: Timeline, t: Timeline :: Over(s.ops, pool) && Over(t.ops, pool) ==> NoCollision(h, s, t))
    && (forall ops :: Over(ops, pool) ==> DistinctLinks(h, ops))
  }

  /** For any ops there is such a hash. */
  lemma CollisionFreeHashExists(pool: seq<Op>)
    ensures exists h :: TellsApart(h, pool)
  {
    hide PoolHash, LinkOf, DistinctLinks;
    var h := PoolHash(pool);
    forall s: Timeline, t: Timeline | Over(s.ops, pool) && Over(t.ops, pool)
      ensures NoCollision(h, s, t)
    {
      forall i, j | Within(s, i) && Within(t, j) && LinkOf(h, Hashed(s, i)) == LinkOf(h, Hashed(t, j))
        ensures Hashed(s, i) == Hashed(t, j)
      {
        PoolHashTellsApart(pool, Hashed(s, i), Hashed(t, j));
      }
    }
    forall ops | Over(ops, pool)
      ensures DistinctLinks(h, ops)
    {
      PoolLinksDiffer(pool, ops);
    }
    assert TellsApart(h, pool);
  }

  lemma PoolLinksDiffer(pool: seq<Op>, ops: seq<Op>)
    requires Over(ops, pool)
    ensures DistinctLinks(PoolHash(pool), ops)
  {
    hide ChainOver, PoolHash;
    var h := PoolHash(pool);
    var chain := ChainOver(h, GENESIS, 0, ops);
    var s := Timeline(GENESIS, 0, ops, chain);
    ChainIsUnique(h, GENESIS, 0, ops, chain);
    forall i, j | 0 <= i < j < |chain|
      ensures chain[i] != chain[j]
    {
      assert LinkHolds(h, GENESIS, 0, ops, chain, i) && LinkHolds(h, GENESIS, 0, ops, chain, j);
      if chain[i] == chain[j] { PoolHashTellsApart(pool, Hashed(s, i), Hashed(s, j)); }
    }
    forall i | 0 <= i < |chain|
      ensures chain[i] != GENESIS
    {
      assert LinkHolds(h, GENESIS, 0, ops, chain, i);
      PoolLinkStart(pool, Prev(GENESIS, chain, i), i, ops[i]);
    }
  }

  lemma PoolLinkStart(pool: seq<Op>, p: Hash, s: nat, o: Op)
    ensures PoolHash(pool)(p, s, o) != GENESIS
  {
    var x := PoolHash(pool)(p, s, o);
    assert x[0] == Unary(s)[0] && Unary(s)[0] <= 1;
  }

  // ---------------------------------------------------------------- verification

  datatype Finding =
    | BaselineMismatch
    | LengthMismatch(links: nat, ops: nat)
    | BrokenLink(step: nat)

  datatype LogIntegrity = LogIntegrity(valid: bool, verifiedEvents: nat, errors: seq<Finding>)

  /** Links among the first `n` that recompute. */
  ghost function GoodLinks(h: LinkHash, anchor: Hash, floor: nat, ops: seq<Op>, chain: seq<Hash>, n: nat): nat
    requires n <= |ops| && n <= |chain|
  {
    if n == 0 then 0
    else GoodLinks(h, anchor, floor, ops, chain, n - 1)
         + if LinkHolds(h, anchor, floor, ops, chain, n - 1) then 1 else 0
  }

  lemma {:induction false} AllLinksGood(h: LinkHash, anchor: Hash, floor: nat, ops: seq<Op>, chain: seq<Hash>, n: nat)
    requires n <= |ops| && n <= |chain|
    ensures GoodLinks(h, anchor, floor, ops, chain, n) <= n
    ensures GoodLinks(h, anchor, floor, ops, chain, n) == n <==>
              forall i :: 0 <= i < n ==> LinkHolds(h, anchor, floor, ops, chain, i)
  {
    if n > 0 {
      AllLinksGood(h, anchor, floor, ops, chain, n - 1);
    }
  }

  /** Nothing was ever chained: a sidecar from before chains existed. */
  predicate Legacy(anchor: Hash, chain: seq<Hash>, baselineHash: Hash) {
    chain == [] && anchor == [] && baselineHash == []
  }

  /** Recomputes the chain; accepts exactly the intact timelines (and the pre-chain ones, unverified). */
  method VerifyTimelineParts(h: LinkHash, anchor: Hash, folded: nat, ops: seq<Op>, chain: seq<Hash>,
                             commitment: Hash, baselineHash: Hash) returns (r: LogIntegrity)
    ensures r.valid <==> Legacy(anchor, chain, baselineHash) ||
                         (commitment == baselineHash && Linked(h, anchor, folded, ops, chain))
    ensures Legacy(anchor, chain, baselineHash) ==> r.verifiedEvents == 0 && r.errors == []
    ensures var n := if |ops| <= |chain| then |ops| else |chain|;
            !Legacy(anchor, chain, baselineHash) ==>
              && r.verifiedEvents == GoodLinks(h, anchor, folded, ops, chain, n)
              && forall i :: 0 <= i < n ==>
                   (BrokenLink(folded + i + 1) in r.errors <==> !LinkHolds(h, anchor, folded, ops, chain, i))
  {
    if chain == [] && anchor == [] && baselineHash == [] {
      return LogIntegrity(true, 0, []);
    }
    var errors: seq<Finding> := [];
    if commitment != baselineHash {
      errors := errors + [BaselineMismatch];
    }
    if |chain| != |ops| {
      errors := errors + [LengthMismatch(|chain|, |ops|)];
    }
    ghost var early := errors;
    var verified := 0;
    var prev := anchor;
    var n := if |ops| <= |chain| then |ops| else |chain|;
    for i := 0 to n
      invariant prev == Prev(anchor, chain, i)
      invariant verified == GoodLinks(h, anchor, folded, ops, chain, i)
      invariant |errors| == |early| + i - verified
      invariant early <= errors
      invariant forall e :: e in errors && e.BrokenLink? ==> e.step <= folded + i
      invariant forall j :: 0 <= j < i ==>
                  (BrokenLink(folded + j + 1) in errors <==> !LinkHolds(h, anchor, folded, ops, chain, j))
    {
      if h(prev, folded + i, ops[i]) == chain[i] {
        verified := verified + 1;
      } else {
        errors := errors + [BrokenLink(folded + i + 1)];
      }
      prev := chain[i];
    }
    AllLinksGood(h, anchor, folded, ops, chain, n);
    return LogIntegrity(errors == [], verified, errors);
  }

  /** `chain_over`: recompute the chain link by link. */
  method RebuildChain(h: LinkHash, anchor: Hash, folded: nat, ops: seq<Op>) returns (chain: seq<Hash>)
    ensures Linked(h, anchor, folded, ops, chain)
  {
    chain := [];
    var prev := anchor;
    for i := 0 to |ops|
      invariant |chain| == i && prev == Head(anchor, chain)
      invariant Linked(h, anchor, folded, ops[..i], chain)
    {
      var link := h(prev, folded + i, ops[i]);
      assert Linked(h, Head(anchor, chain), folded + i, [ops[i]], [link]) by {
        assert LinkHolds(h, Head(anchor, chain), folded + i, [ops[i]], [link], 0);
      }
      LinkedAppend(h, anchor, folded, ops[..i], chain, [ops[i]], [link]);
      assert ops[..i + 1] == ops[..i] + [ops[i]];
      chain := chain + [link];
      prev := link;
    }
    assert ops[..|ops|] == ops;
  }
}
