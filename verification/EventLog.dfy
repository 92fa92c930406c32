/** The sibling chain of the distributed event log: digests over id, payload and predecessor. */
module EventLog {
  import opened Keys
  import opened SegmentFile

  datatype Event = Event(id: nat, payload: Bytes, timestamp: nat, source: Bytes)

  datatype Link = Link(eventId: nat, hash: Bytes, previousHash: Bytes)

  /** SHA-256 in hex. */
  type Sha = Bytes -> Bytes

  const GENESIS: Bytes := [0x47, 0x45, 0x4E, 0x45, 0x53, 0x49, 0x53]

  predicate IsHex(b: byte) {
    0x30 <= b <= 0x39 || 0x61 <= b <= 0x66
  }

  /** Always 64 lower-case hex digits. */
  ghost predicate HexDigest(sha: Sha) {
    forall x :: |sha(x)| == 64 && forall i :: 0 <= i < 64 ==> IsHex(sha(x)[i])
  }

  /** The bytes hashed: no separators between payload and predecessor. */
  function Preimage(id: nat, payload: Bytes, previous: Bytes): Bytes {
    Le(id, 8) + payload + previous
  }

  function LinkHash(sha: Sha, id: nat, payload: Bytes, previous: Bytes): Bytes {
    sha(Preimage(id, payload, previous))
  }

  function ExpectedPrev(chain: seq<Link>, i: nat): Bytes
    requires i <= |chain|
  {
    if i == 0 then GENESIS else chain[i - 1].hash
  }

  predicate GoodLink(sha: Sha, events: seq<Event>, chain: seq<Link>, i: nat)
    requires i < |chain|
  {
    && i < |events|
    && chain[i].previousHash == ExpectedPrev(chain, i)
    && chain[i].hash == LinkHash(sha, events[i].id, events[i].payload, chain[i].previousHash)
  }

  /** Every link has its event and recomputes. */
  ghost predicate Intact(sha: Sha, events: seq<Event>, chain: seq<Link>) {
    forall i :: 0 <= i < |chain| ==> GoodLink(sha, events, chain, i)
  }

  /** What link `i` hashes, in a log that has its event. */
  function Hashed(events: seq<Event>, chain: seq<Link>, i: nat): Bytes
    requires i < |events| && i < |chain|
  {
    Preimage(events[i].id, events[i].payload, chain[i].previousHash)
  }

  /** No two different things hashed in the two logs collide: a finite condition on these two. */
  ghost predicate NoCollision(sha: Sha, e1: seq<Event>, c1: seq<Link>, e2: seq<Event>, c2: seq<Link>) {
    forall i, j :: 0 <= i < |e1| && i < |c1| && 0 <= j < |e2| && j < |c2| && sha(Hashed(e1, c1, i)) == sha(Hashed(e2, c2, j)) ==>
      Hashed(e1, c1, i) == Hashed(e2, c2, j)
  }

  datatype Problem = MissingEvent(index: nat) | ChainBroken(index: nat) | HashMismatch(index: nat)

  datatype IntegrityReport = IntegrityReport(valid: bool, totalEvents: nat, verifiedEvents: nat, errors: seq<Problem>)

  class DistributedEventLog {
    const sha: Sha
    var events: seq<Event>
    var hashChain: seq<Link>
    var nextId: nat

    ghost predicate Valid()
      reads this
    {
      && |events| == |hashChain| == nextId
      && (forall i :: 0 <= i < |events| ==> events[i].id == i == hashChain[i].eventId)
      && Intact(sha, events, hashChain)
    }

    constructor (sha: Sha)
      ensures Valid() && events == [] && this.sha == sha
    {
      this.sha := sha;
      events, hashChain, nextId := [], [], 0;
    }

    method Append(payload: Bytes, source: Bytes, now: nat) returns (id: nat)
      requires Valid()
      modifies this
      ensures Valid() && id == old(nextId)
      ensures events == old(events) + [Event(id, payload, now, source)]
      ensures |hashChain| == |old(hashChain)| + 1 && old(hashChain) <= hashChain
    {
      hide LinkHash;
      id := nextId;
      nextId := nextId + 1;
      var previous := if hashChain == [] then GENESIS else hashChain[|hashChain| - 1].hash;
      var link := Link(id, LinkHash(sha, id, payload, previous), previous);
      forall i | 0 <= i < |hashChain|
        ensures GoodLink(sha, events + [Event(id, payload, now, source)], hashChain + [link], i)
      {
        assert GoodLink(sha, events, hashChain, i);
      }
      hashChain := hashChain + [link];
      events := events + [Event(id, payload, now, source)];
    }

    /** Walks the links; accepts exactly the intact chains, however many events follow the last link. */
    method VerifyIntegrity() returns (r: IntegrityReport)
      ensures r.valid <==> Intact(sha, events, hashChain)
      ensures hashChain != [] ==>
                && r.totalEvents == |events|
                && r.verifiedEvents == if |events| <= |hashChain| then |events| else |hashChain|
    {
      hide LinkHash;
      if hashChain == [] {
        return IntegrityReport(true, 0, 0, []);
      }
      var errors: seq<Problem> := [];
      var verified := 0;
      for i := 0 to |hashChain|
        invariant verified == if |events| <= i then |events| else i
        invariant errors == [] <==> forall j :: 0 <= j < i ==> GoodLink(sha, events, hashChain, j)
      {
        ghost var before := errors;
        if i >= |events| {
          errors := errors + [MissingEvent(i)];
        } else {
          var expected := if i == 0 then GENESIS else hashChain[i - 1].hash;
          if hashChain[i].previousHash != expected {
            errors := errors + [ChainBroken(i)];
          }
          if LinkHash(sha, events[i].id, events[i].payload, hashChain[i].previousHash) != hashChain[i].hash {
            errors := errors + [HashMismatch(i)];
          }
          verified := verified + 1;
        }
        assert errors == [] <==> before == [] && GoodLink(sha, events, hashChain, i);
      }
      return IntegrityReport(errors == [], |events|, verified, errors);
    }
  }

  // ---------------------------------------------------------------- what a shared link proves

  ghost predicate IdsFit(events: seq<Event>) {
    forall i :: 0 <= i < |events| ==> events[i].id < Pow256(8)
  }

  /** With predecessors of equal length the unseparated bytes still determine id, payload and predecessor. */
  lemma PreimageInjective(id1: nat, p1: Bytes, h1: Bytes, id2: nat, p2: Bytes, h2: Bytes)
    requires Preimage(id1, p1, h1) == Preimage(id2, p2, h2) && |h1| == |h2|
    requires id1 < Pow256(8) && id2 < Pow256(8)
    ensures id1 == id2 && p1 == p2 && h1 == h2
  {
    hide Le, FromLe, Pow256;
    var a, b := Preimage(id1, p1, h1), Preimage(id2, p2, h2);
    assert a[..8] == Le(id1, 8) && b[..8] == Le(id2, 8);
    LeRoundTrip(id1, 8);
    LeRoundTrip(id2, 8);
    assert a[8..|a| - |h1|] == p1 && b[8..|b| - |h2|] == p2;
    assert a[|a| - |h1|..] == h1 && b[|b| - |h2|..] == h2;
  }

  /** A first link and a later link never hash the same bytes: the genesis marker is no digest. */
  lemma GenesisPreimageDiffers(sha: Sha, id1: nat, p1: Bytes, id2: nat, p2: Bytes, x: Bytes)
    requires HexDigest(sha)
    ensures Preimage(id1, p1, GENESIS) != Preimage(id2, p2, sha(x))
  {
    var a, b := Preimage(id1, p1, GENESIS), Preimage(id2, p2, sha(x));
    assert a[|a| - 7] == 0x47;
    assert b[|b| - 7] == sha(x)[57] && IsHex(sha(x)[57]);
  }

  lemma PrevIsDigest(sha: Sha, events: seq<Event>, chain: seq<Link>, i: nat)
    requires Intact(sha, events, chain) && 0 < i < |chain|
    ensures i < |events|
    ensures chain[i].previousHash == LinkHash(sha, events[i - 1].id, events[i - 1].payload, chain[i - 1].previousHash)
    ensures chain[i].previousHash == chain[i - 1].hash
  {
    assert GoodLink(sha, events, chain, i) && GoodLink(sha, events, chain, i - 1);
  }

  /**
   * Two intact chains that share a link share it at the same step, and agree on the id and
   * payload of every event up to it.
   */
  lemma {:induction false} SharedHashAgrees(sha: Sha, e1: seq<Event>, c1: seq<Link>, i: nat, e2: seq<Event>, c2: seq<Link>, j: nat)
    requires HexDigest(sha) && NoCollision(sha, e1, c1, e2, c2) && Intact(sha, e1, c1) && Intact(sha, e2, c2) && IdsFit(e1) && IdsFit(e2)
    requires i < |c1| && j < |c2| && c1[i].hash == c2[j].hash
    ensures i == j && i < |e1| && i < |e2|
    ensures forall n :: 0 <= n <= i ==> e1[n].id == e2[n].id && e1[n].payload == e2[n].payload
    ensures forall n :: 0 <= n <= i ==> c1[n].hash == c2[n].hash
    decreases i + j
  {
    hide Preimage, HexDigest;
    assert GoodLink(sha, e1, c1, i) && GoodLink(sha, e2, c2, j);
    assert Hashed(e1, c1, i) == Hashed(e2, c2, j);
    hide NoCollision;
    if i > 0 { PrevIsDigest(sha, e1, c1, i); }
    if j > 0 { PrevIsDigest(sha, e2, c2, j); }
    if i > 0 && j > 0 {
      DigestLength(sha, Preimage(e1[i - 1].id, e1[i - 1].payload, c1[i - 1].previousHash));
      DigestLength(sha, Preimage(e2[j - 1].id, e2[j - 1].payload, c2[j - 1].previousHash));
      PreimageInjective(e1[i].id, e1[i].payload, c1[i].previousHash, e2[j].id, e2[j].payload, c2[j].previousHash);
      SharedHashAgrees(sha, e1, c1, i - 1, e2, c2, j - 1);
    } else if i == 0 && j == 0 {
      PreimageInjective(e1[0].id, e1[0].payload, GENESIS, e2[0].id, e2[0].payload, GENESIS);
    } else if i == 0 {
      GenesisPreimageDiffers(sha, e1[0].id, e1[0].payload, e2[j].id, e2[j].payload,
                             Preimage(e2[j - 1].id, e2[j - 1].payload, c2[j - 1].previousHash));
    } else {
      GenesisPreimageDiffers(sha, e2[0].id, e2[0].payload, e1[i].id, e1[i].payload,
                             Preimage(e1[i - 1].id, e1[i - 1].payload, c1[i - 1].previousHash));
    }
  }

  lemma DigestLength(sha: Sha, x: Bytes)
    requires HexDigest(sha)
    ensures |sha(x)| == 64
  {
  }

  /**
   * What verification protects under an unchanged chain, exactly: the id and payload of the
   * events that have a link. Times, sources and events past the last link are not covered.
   */
  lemma VerificationCovers(sha: Sha, events: seq<Event>, chain: seq<Link>, altered: seq<Event>)
    requires HexDigest(sha) && NoCollision(sha, altered, chain, events, chain)
    requires Intact(sha, events, chain) && IdsFit(events) && IdsFit(altered)
    ensures |events| >= |chain|
    ensures Intact(sha, altered, chain) <==>
              && |altered| >= |chain|
              && forall i :: 0 <= i < |chain| ==> altered[i].id == events[i].id && altered[i].payload == events[i].payload
  {
    hide LinkHash, HexDigest, Preimage, NoCollision;
    assert |events| >= |chain| by { if chain != [] { assert GoodLink(sha, events, chain, |chain| - 1); } }
    if Intact(sha, altered, chain) {
      if chain != [] {
        SharedHashAgrees(sha, altered, chain, |chain| - 1, events, chain, |chain| - 1);
      }
    } else {
      var i :| 0 <= i < |chain| && !GoodLink(sha, altered, chain, i);
      assert GoodLink(sha, events, chain, i);
    }
  }

  /** Hence an append past the last link goes unnoticed unless events and links are counted. */
  lemma ExtraEventsUnnoticed(sha: Sha, events: seq<Event>, chain: seq<Link>, more: seq<Event>)
    requires Intact(sha, events, chain)
    ensures Intact(sha, events + more, chain)
  {
    forall i | 0 <= i < |chain|
      ensures GoodLink(sha, events + more, chain, i)
    {
      assert GoodLink(sha, events, chain, i);
    }
  }

  // ---------------------------------------------------------------- such digests exist

  function Pow16(n: nat): (p: nat)
    ensures p > 0
  {
    if n == 0 then 1 else 16 * Pow16(n - 1)
  }

  function HexDigit(d: nat): byte
    requires d < 16
  {
    if d < 10 then 0x30 + d else 0x57 + d
  }

  /** The `w` low hex digits of `n`, lowest first. */
  function HexDigits(n: nat, w: nat): (s: Bytes)
    ensures |s| == w && forall i :: 0 <= i < w ==> IsHex(s[i])
  {
    if w == 0 then [] else [HexDigit(n % 16)] + HexDigits(n / 16, w - 1)
  }

  lemma {:induction false} HexDigitsDetermine(m: nat, n: nat, w: nat)
    requires m < Pow16(w) && n < Pow16(w) && HexDigits(m, w) == HexDigits(n, w)
    ensures m == n
  {
    if w > 0 {
      assert HexDigits(m, w)[0] == HexDigits(n, w)[0];
      assert HexDigits(m, w)[1..] == HexDigits(m / 16, w - 1) && HexDigits(n, w)[1..] == HexDigits(n / 16, w - 1);
      HexDigitsDetermine(m / 16, n / 16, w - 1);
    }
  }

  function IndexIn(pool: seq<Bytes>, x: Bytes): (n: nat)
    ensures x in pool ==> n < |pool| && pool[n] == x
  {
    if pool == [] || pool[0] == x then 0 else 1 + IndexIn(pool[1..], x)
  }

  /** Any texts up to the number of digests have a digest function that tells them all apart. */
  lemma DigestExists(pool: seq<Bytes>)
    requires |pool| <= Pow16(64)
    ensures exists sha :: HexDigest(sha) && forall x, y :: x in pool && y in pool && sha(x) == sha(y) ==> x == y
  {
    hide Pow16, HexDigits, IndexIn;
    var sha := x => HexDigits(IndexIn(pool, x), 64);
    forall x, y | x in pool && y in pool && sha(x) == sha(y)
      ensures x == y
    {
      HexDigitsDetermine(IndexIn(pool, x), IndexIn(pool, y), 64);
    }
    assert HexDigest(sha);
  }
}
