/** What window compression computes: which items are stored, which are folded into an earlier one, what eviction removes. */
module Compressor {
  import opened Numbers
  import opened Results
  import opened Keys

  /** UTF-8 text. */
  type Text = Bytes

  datatype Route = Json | Code | Prose
  datatype Algorithm = Crusher | Ast | Summ | Passthrough | Dedup
  datatype Stat = Stat(algorithm: Algorithm, tokensBefore: nat, tokensAfter: nat, ratio: real)
  datatype Item = Item(kind: Text, score: real, uri: Text, content: Text)
  datatype Packed = Packed(text: Text, ref: Option<Text>, stat: Stat)
  datatype Shown = Shown(content: Text, ref: Option<Text>)

  datatype Config = Config(
    enableJson: bool,
    enableCode: bool,
    enableProse: bool,
    summarySentences: nat,
    ccrCapacity: nat,
    minChars: nat,
    enableDedup: bool,
    dedupThreshold: real,
    enableAstV2: bool,
    astSignatureCollapseAfter: nat
  )

  /** The heuristics, arbitrary: content hash, routing, the three text transforms, estimated similarity. */
  datatype Transforms = Transforms(
    refOf: Text -> Text,
    classify: (Text, Text) -> Route,
    crush: Text -> Text,
    skeletonize: (Text, Config) -> Text,
    summarize: (Text, nat, real) -> Text,
    similarity: (Text, Text) -> real
  )

  // ---------------------------------------------------------------- one item

  /** Characters of a UTF-8 text: every byte but the continuation bytes starts one. */
  function Chars(s: Text): nat {
    if s == [] then 0 else (if 0x80 <= s[0] < 0xC0 then 0 else 1) + Chars(s[1..])
  }

  function Tokens(s: Text): nat {
    Chars(s) / 4
  }

  function StatOf(algorithm: Algorithm, before: nat, after: nat): Stat {
    Stat(algorithm, before, after, if before == 0 then 1.0 else after as real / before as real)
  }

  function Unpacked(content: Text): Packed {
    Packed(content, None, StatOf(Passthrough, Tokens(content), Tokens(content)))
  }

  function Stored(t: Transforms, algorithm: Algorithm, content: Text, text: Text): Packed {
    Packed(text, Some(t.refOf(content)), StatOf(algorithm, Tokens(content), Tokens(text)))
  }

  function Pack(t: Transforms, c: Config, item: Item): Packed {
    if |item.content| < c.minChars then Unpacked(item.content)
    else
      match t.classify(item.kind, item.content)
      case Json => if c.enableJson then Stored(t, Crusher, item.content, t.crush(item.content)) else Unpacked(item.content)
      case Code => if c.enableCode then Stored(t, Ast, item.content, t.skeletonize(item.content, c)) else Unpacked(item.content)
      case Prose =>
        if !c.enableProse then Unpacked(item.content)
        else
          var text := t.summarize(item.content, c.summarySentences, item.score);
          if |text| >= |item.content| then Unpacked(item.content) else Stored(t, Summ, item.content, text)
  }

  function PackAll(t: Transforms, c: Config, items: seq<Item>): (ps: seq<Packed>)
    ensures |ps| == |items| && forall i :: 0 <= i < |items| ==> ps[i] == Pack(t, c, items[i])
  {
    if items == [] then [] else PackAll(t, c, items[..|items| - 1]) + [Pack(t, c, items[|items| - 1])]
  }

  /** An item is either shown as it is, or filed under the reference of its own content. */
  lemma PackedOrPlain(t: Transforms, c: Config, item: Item)
    ensures var p := Pack(t, c, item);
            if p.ref.Some? then p.ref.value == t.refOf(item.content) && |item.content| >= c.minChars
            else p.text == item.content
  {
    hide Tokens;
  }

  /** The store after filing every packed item in turn. */
  function Filed(t: Transforms, c: Config, ccr: map<Text, Text>, items: seq<Item>): map<Text, Text> {
    if items == [] then ccr
    else
      var item := items[|items| - 1];
      var before := Filed(t, c, ccr, items[..|items| - 1]);
      if Pack(t, c, item).ref.Some? then before[Pack(t, c, item).ref.value := item.content] else before
  }

  // ---------------------------------------------------------------- duplicates

  /** The first kept item from `j` up to `i` that item `i` is close to. */
  function FirstClose(t: Transforms, threshold: real, texts: seq<Text>, dups: seq<Option<nat>>, i: nat, j: nat): Option<nat>
    requires |dups| == i < |texts| && j <= i
    decreases i - j
  {
    if j == i then None
    else if dups[j].None? && t.similarity(texts[i], texts[j]) >= threshold then Some(j)
    else FirstClose(t, threshold, texts, dups, i, j + 1)
  }

  lemma {:induction false} FirstCloseExactly(t: Transforms, threshold: real, texts: seq<Text>, dups: seq<Option<nat>>, i: nat, j: nat)
    requires |dups| == i < |texts| && j <= i
    ensures var r := FirstClose(t, threshold, texts, dups, i, j);
            && (r.Some? ==> j <= r.value < i && dups[r.value].None? && t.similarity(texts[i], texts[r.value]) >= threshold)
            && (forall k :: j <= k < (if r.Some? then r.value else i) && dups[k].None? ==> t.similarity(texts[i], texts[k]) < threshold)
    decreases i - j
  {
    if j < i { FirstCloseExactly(t, threshold, texts, dups, i, j + 1); }
  }

  function Dups(t: Transforms, threshold: real, texts: seq<Text>, n: nat): (dups: seq<Option<nat>>)
    requires n <= |texts|
    ensures |dups| == n
  {
    if n == 0 then []
    else
      var before := Dups(t, threshold, texts, n - 1);
      before + [FirstClose(t, threshold, texts, before, n - 1, 0)]
  }

  predicate Close(t: Transforms, threshold: real, texts: seq<Text>, i: nat, j: nat)
    requires i < |texts| && j < |texts|
  {
    t.similarity(texts[i], texts[j]) >= threshold
  }

  /** Item `i` is kept and close to no kept item before it, or it names the first kept item it is close to. */
  ghost predicate Settled(t: Transforms, threshold: real, texts: seq<Text>, dups: seq<Option<nat>>, i: nat)
    requires i < |dups| <= |texts|
  {
    && (dups[i].Some? ==> dups[i].value < i && dups[dups[i].value].None? && Close(t, threshold, texts, i, dups[i].value))
    && (forall k :: 0 <= k < (if dups[i].Some? && dups[i].value < i then dups[i].value else i) && dups[k].None? ==> !Close(t, threshold, texts, i, k))
  }

  ghost predicate Suppression(t: Transforms, threshold: real, texts: seq<Text>, dups: seq<Option<nat>>) {
    |dups| <= |texts| && forall i :: 0 <= i < |dups| ==> Settled(t, threshold, texts, dups, i)
  }

  lemma {:induction false} DupsSuppress(t: Transforms, threshold: real, texts: seq<Text>, n: nat)
    requires n <= |texts|
    ensures Suppression(t, threshold, texts, Dups(t, threshold, texts, n))
  {
    hide Settled, FirstClose;
    if n > 0 {
      DupsSuppress(t, threshold, texts, n - 1);
      var before := Dups(t, threshold, texts, n - 1);
      var after := Dups(t, threshold, texts, n);
      forall i | 0 <= i < n
        ensures Settled(t, threshold, texts, after, i)
      {
        if i < n - 1 { SettledStays(t, threshold, texts, before, after, i); } else { LastSettles(t, threshold, texts, before); }
      }
    }
  }

  lemma SettledStays(t: Transforms, threshold: real, texts: seq<Text>, before: seq<Option<nat>>, after: seq<Option<nat>>, i: nat)
    requires i < |before| <= |after| <= |texts| && before == after[..|before|]
    ensures Settled(t, threshold, texts, before, i) <==> Settled(t, threshold, texts, after, i)
  {
    assert forall k :: 0 <= k < |before| ==> before[k] == after[k];
  }

  lemma LastSettles(t: Transforms, threshold: real, texts: seq<Text>, before: seq<Option<nat>>)
    requires |before| < |texts|
    ensures Settled(t, threshold, texts, before + [FirstClose(t, threshold, texts, before, |before|, 0)], |before|)
  {
    FirstCloseExactly(t, threshold, texts, before, |before|, 0);
    hide FirstClose;
  }

  /** There is only one such suppression, so the pass computes exactly it. */
  lemma {:induction false} SuppressionIsUnique(t: Transforms, threshold: real, texts: seq<Text>, a: seq<Option<nat>>, b: seq<Option<nat>>)
    requires Suppression(t, threshold, texts, a) && Suppression(t, threshold, texts, b) && |a| == |b|
    ensures a == b
  {
    hide Settled;
    if a != [] {
      var n := |a| - 1;
      forall i | 0 <= i < n
        ensures Settled(t, threshold, texts, a[..n], i) && Settled(t, threshold, texts, b[..n], i)
      {
        SettledStays(t, threshold, texts, a[..n], a, i);
        SettledStays(t, threshold, texts, b[..n], b, i);
      }
      SuppressionIsUnique(t, threshold, texts, a[..n], b[..n]);
      LastAgrees(t, threshold, texts, a, b, n);
      assert a == a[..n] + [a[n]] && b == b[..n] + [b[n]];
    }
  }

  lemma LastAgrees(t: Transforms, threshold: real, texts: seq<Text>, a: seq<Option<nat>>, b: seq<Option<nat>>, n: nat)
    requires |a| == |b| == n + 1 <= |texts| && a[..n] == b[..n]
    requires Settled(t, threshold, texts, a, n) && Settled(t, threshold, texts, b, n)
    ensures a[n] == b[n]
  {
    hide Close;
    assert forall k :: 0 <= k < n ==> a[k] == a[..n][k] && b[k] == b[..n][k];
  }

  /** Nothing is suppressed exactly when no two items are close. */
  lemma NothingSuppressedExactly(t: Transforms, threshold: real, texts: seq<Text>)
    ensures (forall i :: 0 <= i < |texts| ==> Dups(t, threshold, texts, |texts|)[i].None?) <==>
            (forall i, j :: 0 <= j < i < |texts| ==> !Close(t, threshold, texts, i, j))
  {
    DupsSuppress(t, threshold, texts, |texts|);
    hide Dups, Close, Settled;
    var d := Dups(t, threshold, texts, |texts|);
    if forall i :: 0 <= i < |texts| ==> d[i].None? {
      forall i, j | 0 <= j < i < |texts|
        ensures !Close(t, threshold, texts, i, j)
      {
        SettledMeans(t, threshold, texts, d, i);
        assert d[i].None? && d[j].None?;
      }
    } else {
      var i :| 0 <= i < |texts| && !d[i].None?;
      SettledMeans(t, threshold, texts, d, i);
      assert Close(t, threshold, texts, i, d[i].value);
    }
  }

  lemma SettledMeans(t: Transforms, threshold: real, texts: seq<Text>, d: seq<Option<nat>>, i: nat)
    requires i < |d| <= |texts| && Settled(t, threshold, texts, d, i)
    ensures d[i].Some? ==> d[i].value < i && d[d[i].value].None? && Close(t, threshold, texts, i, d[i].value)
    ensures d[i].None? ==> forall j :: 0 <= j < i && d[j].None? ==> !Close(t, threshold, texts, i, j)
    ensures i > 0 && d[0].None? && Close(t, threshold, texts, i, 0) ==> d[i] == Some(0)
    ensures i == 0 ==> d[0].None?
  {
    hide Close;
  }

  /** At a threshold of zero, documented as "never", every item but the first is a duplicate of the first. */
  lemma ZeroThresholdSuppressesAll(t: Transforms, texts: seq<Text>, i: nat)
    requires forall x, y :: t.similarity(x, y) >= 0.0
    requires 0 < i < |texts|
    ensures Dups(t, 0.0, texts, |texts|)[i] == Some(0)
  {
    DupsSuppress(t, 0.0, texts, |texts|);
    hide Dups, Settled;
    var d := Dups(t, 0.0, texts, |texts|);
    SettledMeans(t, 0.0, texts, d, 0);
    SettledMeans(t, 0.0, texts, d, i);
  }

  lemma DupsPointBack(t: Transforms, threshold: real, texts: seq<Text>, n: nat)
    requires n <= |texts|
    ensures forall i :: 0 <= i < n && Dups(t, threshold, texts, n)[i].Some? ==> Dups(t, threshold, texts, n)[i].value < i
  {
    DupsSuppress(t, threshold, texts, n);
    hide Dups, Close, Settled;
    var d := Dups(t, threshold, texts, n);
    forall i | 0 <= i < n
      ensures d[i].Some? ==> d[i].value < i
    {
      SettledMeans(t, threshold, texts, d, i);
    }
  }

  // ---------------------------------------------------------------- the window

  /** "// ~dup of " */
  const DUP_OF: Text := [47, 47, 32, 126, 100, 117, 112, 32, 111, 102, 32]

  function Texts(ps: seq<Packed>): (ts: seq<Text>)
    ensures |ts| == |ps| && forall i :: 0 <= i < |ps| ==> ts[i] == ps[i].text
  {
    if ps == [] then [] else Texts(ps[..|ps| - 1]) + [ps[|ps| - 1].text]
  }

  function WindowDups(t: Transforms, c: Config, items: seq<Item>): (dups: seq<Option<nat>>)
    ensures |dups| == |items| && forall i :: 0 <= i < |items| && dups[i].Some? ==> dups[i].value < i
  {
    if c.enableDedup && |items| > 1 then
      DupsPointBack(t, c.dedupThreshold, Texts(PackAll(t, c, items)), |items|);
      Dups(t, c.dedupThreshold, Texts(PackAll(t, c, items)), |items|)
    else seq(|items|, _ => None)
  }

  /** Item `i` as packed, or as a one-line pointer to the kept item it duplicates. */
  function Final(t: Transforms, c: Config, items: seq<Item>, i: nat): Packed
    requires i < |items|
  {
    var p := Pack(t, c, items[i]);
    var dup := WindowDups(t, c, items)[i];
    if dup.None? then p
    else
      var line := DUP_OF + items[dup.value].uri;
      Packed(line, p.ref, StatOf(Dedup, p.stat.tokensBefore, Tokens(line)))
  }

  function Window(t: Transforms, c: Config, items: seq<Item>): (out: seq<Shown>)
    ensures |out| == |items|
    ensures forall i :: 0 <= i < |items| ==> out[i] == Shown(Final(t, c, items, i).text, Final(t, c, items, i).ref)
  {
    seq(|items|, i requires 0 <= i < |items| => Shown(Final(t, c, items, i).text, Final(t, c, items, i).ref))
  }

  /** Placeholders never chain: a duplicate points at an earlier item at or above the threshold that is itself shown in full. */
  lemma PlaceholdersNeverChain(t: Transforms, c: Config, items: seq<Item>, i: nat)
    requires i < |items| && WindowDups(t, c, items)[i].Some?
    ensures var j := WindowDups(t, c, items)[i].value;
            && j < i && WindowDups(t, c, items)[j].None?
            && t.similarity(Pack(t, c, items[i]).text, Pack(t, c, items[j]).text) >= c.dedupThreshold
            && Window(t, c, items)[i] == Shown(DUP_OF + items[j].uri, Pack(t, c, items[i]).ref)
            && Window(t, c, items)[j] == Shown(Pack(t, c, items[j]).text, Pack(t, c, items[j]).ref)
  {
    var texts := Texts(PackAll(t, c, items));
    DupsSuppress(t, c.dedupThreshold, texts, |items|);
    SettledMeans(t, c.dedupThreshold, texts, WindowDups(t, c, items), i);
    hide Pack, Tokens, StatOf, Dups, Settled, PackAll, Texts, Suppression;
  }

  /** Items shown in full are pairwise below the threshold. */
  lemma KeptItemsAreApart(t: Transforms, c: Config, items: seq<Item>, i: nat, j: nat)
    requires j < i < |items| && c.enableDedup
    requires WindowDups(t, c, items)[i].None? && WindowDups(t, c, items)[j].None?
    ensures t.similarity(Window(t, c, items)[i].content, Window(t, c, items)[j].content) < c.dedupThreshold
  {
    var texts := Texts(PackAll(t, c, items));
    DupsSuppress(t, c.dedupThreshold, texts, |items|);
    SettledMeans(t, c.dedupThreshold, texts, WindowDups(t, c, items), i);
    hide Pack, Tokens, StatOf, Dups, Settled, PackAll, Texts, Suppression;
  }

  // ---------------------------------------------------------------- eviction

  /** Every entry is filed under the reference of its content. */
  ghost predicate Keyed(t: Transforms, ccr: map<Text, Text>) {
    forall r :: r in ccr ==> t.refOf(ccr[r]) == r
  }

  /** The window's references. */
  function Refs(t: Transforms, c: Config, items: seq<Item>): (refs: set<Text>)
    ensures forall i :: 0 <= i < |items| && Pack(t, c, items[i]).ref.Some? ==> Pack(t, c, items[i]).ref.value in refs
  {
    if items == [] then {}
    else
      var p := Pack(t, c, items[|items| - 1]);
      Refs(t, c, items[..|items| - 1]) + (if p.ref.Some? then {p.ref.value} else {})
  }

  /** Part of a store, with the kept entries, that lost only the least of the others. */
  ghost predicate Evicting(before: map<Text, Text>, after: map<Text, Text>, keep: set<Text>) {
    && (forall r :: r in after ==> r in before && after[r] == before[r])
    && (forall r :: r in before && r in keep ==> r in after)
    && (forall gone, r :: gone in before && gone !in after && r in after && r !in keep ==> Less(gone, r))
  }

  /** Down to the capacity or to the kept entries, losing only the least of the others. */
  ghost predicate Eviction(before: map<Text, Text>, after: map<Text, Text>, keep: set<Text>, capacity: nat) {
    && Evicting(before, after, keep)
    && |after| == (if capacity == 0 || |before| <= capacity then |before| else Max(capacity, |before.Keys * keep|))
  }

  lemma EvictingNone(m: map<Text, Text>, keep: set<Text>)
    ensures Evicting(m, m, keep)
  {
  }

  lemma EvictingOne(before: map<Text, Text>, now: map<Text, Text>, keep: set<Text>, victim: Text)
    requires Evicting(before, now, keep) && victim in now && victim !in keep
    requires forall r :: r in now.Keys - keep ==> Leq(victim, r)
    ensures Evicting(before, now - {victim}, keep)
    ensures |now - {victim}| == |now| - 1
    ensures before.Keys * keep <= (now - {victim}).Keys
  {
    hide Less;
    var after := now - {victim};
    assert after.Keys == now.Keys - {victim};
    assert now.Keys == after.Keys + {victim};
    forall r | r in after && r !in keep
      ensures Less(victim, r)
    {
      assert r in now.Keys - keep;
    }
  }

  lemma EvictedAll(before: map<Text, Text>, now: map<Text, Text>, keep: set<Text>)
    requires Evicting(before, now, keep) && now.Keys - keep == {}
    ensures now.Keys == before.Keys * keep
  {
    hide Less;
    forall r | r in now.Keys
      ensures r in keep
    {
      assert r in keep || r in now.Keys - keep;
    }
  }

  /** What is left after eviction is determined. */
  lemma EvictionIsUnique(before: map<Text, Text>, a: map<Text, Text>, b: map<Text, Text>, keep: set<Text>, capacity: nat)
    requires Eviction(before, a, keep, capacity) && Eviction(before, b, keep, capacity)
    ensures a == b
  {
    hide Less, Max;
    if a.Keys != b.Keys {
      SameSizeDiffer(a.Keys, b.Keys);
      SameSizeDiffer(b.Keys, a.Keys);
      var x :| x in a.Keys && x !in b.Keys;
      var y :| y in b.Keys && y !in a.Keys;
      assert Less(x, y) && Less(y, x);
      LessAsymmetric(x, y);
    } else {
      assert forall r :: r in a <==> r in b by {
        assert forall r :: r in a.Keys <==> r in b.Keys;
      }
    }
  }

  lemma SameSizeDiffer<T>(a: set<T>, b: set<T>)
    requires |a| == |b| && a != b
    ensures exists x :: x in a && x !in b
  {
    assert a == a * b + (a - b) && b == a * b + (b - a);
    assert |a - b| == |b - a|;
    assert a - b == {} ==> b - a == {};
    assert a - b == {} && b - a == {} ==> a == b;
    var x :| x in a - b;
  }

  lemma SubsetSize<T>(a: set<T>, b: set<T>)
    requires a <= b
    ensures |a| <= |b|
  {
    assert b == a + (b - a);
  }

  // ---------------------------------------------------------------- what a reader gets back

  /** No two different filed contents share a reference. */
  ghost predicate NoCollision(t: Transforms, c: Config, items: seq<Item>) {
    forall i, j :: 0 <= i < j < |items| && Pack(t, c, items[i]).ref.Some? && Pack(t, c, items[i]).ref == Pack(t, c, items[j]).ref ==>
      items[i].content == items[j].content
  }

  /** Every reference shown resolves to its own original. */
  ghost predicate Resolves(t: Transforms, c: Config, items: seq<Item>, ccr: map<Text, Text>) {
    forall i :: 0 <= i < |items| && Pack(t, c, items[i]).ref.Some? ==>
      Pack(t, c, items[i]).ref.value in ccr && ccr[Pack(t, c, items[i]).ref.value] == items[i].content
  }

  /** The last item filed under a reference is the one on file. */
  lemma {:induction false} LastFiledWins(t: Transforms, c: Config, ccr: map<Text, Text>, items: seq<Item>, i: nat)
    requires i < |items| && Pack(t, c, items[i]).ref.Some?
    ensures var r := Pack(t, c, items[i]).ref.value;
            && r in Filed(t, c, ccr, items)
            && exists j :: i <= j < |items| && Pack(t, c, items[j]).ref == Some(r) && Filed(t, c, ccr, items)[r] == items[j].content
  {
    hide Pack;
    var n := |items| - 1;
    var r := Pack(t, c, items[i]).ref.value;
    if Pack(t, c, items[n]).ref == Some(r) {
      assert Filed(t, c, ccr, items)[r] == items[n].content;
    } else {
      assert items[..n][i] == items[i];
      LastFiledWins(t, c, ccr, items[..n], i);
      var j :| i <= j < n && Pack(t, c, items[..n][j]).ref == Some(r) && Filed(t, c, ccr, items[..n])[r] == items[..n][j].content;
      assert items[..n][j] == items[j];
    }
  }

  lemma {:induction false} RefsAreFiled(t: Transforms, c: Config, ccr: map<Text, Text>, items: seq<Item>)
    ensures Refs(t, c, items) <= Filed(t, c, ccr, items).Keys
  {
    hide Pack;
    if items != [] { RefsAreFiled(t, c, ccr, items[..|items| - 1]); }
  }

  lemma KeptIsOnFile(t: Transforms, c: Config, ccr: map<Text, Text>, items: seq<Item>, after: map<Text, Text>, i: nat)
    requires Eviction(Filed(t, c, ccr, items), after, Refs(t, c, items), c.ccrCapacity)
    requires i < |items| && Pack(t, c, items[i]).ref.Some?
    ensures var r := Pack(t, c, items[i]).ref;
            && r.value in after
            && exists j :: i <= j < |items| && Pack(t, c, items[j]).ref == r && after[r.value] == items[j].content
  {
    LastFiledWins(t, c, ccr, items, i);
    hide Pack, Filed, Less, Max;
  }

  /** After a window, for any capacity: every reference resolves to its own original exactly when no two references collide. */
  lemma ReferencesResolveExactly(t: Transforms, c: Config, ccr: map<Text, Text>, items: seq<Item>, after: map<Text, Text>)
    requires Eviction(Filed(t, c, ccr, items), after, Refs(t, c, items), c.ccrCapacity)
    ensures Resolves(t, c, items, after) <==> NoCollision(t, c, items)
  {
    hide Pack, Filed, Less, Max, Refs, Eviction;
    if NoCollision(t, c, items) {
      forall i | 0 <= i < |items| && Pack(t, c, items[i]).ref.Some?
        ensures Pack(t, c, items[i]).ref.value in after && after[Pack(t, c, items[i]).ref.value] == items[i].content
      {
        KeptIsOnFile(t, c, ccr, items, after, i);
      }
    }
  }

  /** The store is over its capacity only by what the window itself needs. */
  lemma StoreIsBounded(t: Transforms, c: Config, ccr: map<Text, Text>, items: seq<Item>, after: map<Text, Text>)
    requires Eviction(Filed(t, c, ccr, items), after, Refs(t, c, items), c.ccrCapacity) && c.ccrCapacity > 0
    ensures |after| <= Max(c.ccrCapacity, |Refs(t, c, items)|)
    ensures |after| > c.ccrCapacity ==> after.Keys == Refs(t, c, items)
  {
    hide Pack, Filed, Less, Refs;
    var before := Filed(t, c, ccr, items);
    RefsAreFiled(t, c, ccr, items);
    var keep := Refs(t, c, items);
    assert before.Keys * keep == keep;
    if |after| > c.ccrCapacity {
      assert keep <= after.Keys;
      assert |after.Keys| == |keep|;
      SubsetIsAll(keep, after.Keys);
    }
  }

  lemma SubsetIsAll<T>(a: set<T>, b: set<T>)
    requires a <= b && |a| == |b|
    ensures a == b
  {
    assert b == a + (b - a);
    assert b - a == {};
  }

  /** Looking up the reference of a text gives that text or nothing, if and only if no stored text collides with it. */
  lemma LookupIsExact(t: Transforms, ccr: map<Text, Text>, x: Text)
    requires Keyed(t, ccr)
    ensures (t.refOf(x) in ccr ==> ccr[t.refOf(x)] == x) <==> (forall r :: r in ccr && t.refOf(ccr[r]) == t.refOf(x) ==> ccr[r] == x)
  {
    if t.refOf(x) in ccr { assert t.refOf(ccr[t.refOf(x)]) == t.refOf(x); }
  }

  lemma {:induction false} FilingKeepsKeyed(t: Transforms, c: Config, ccr: map<Text, Text>, items: seq<Item>)
    requires Keyed(t, ccr)
    ensures Keyed(t, Filed(t, c, ccr, items))
  {
    hide Pack;
    if items != [] {
      FilingKeepsKeyed(t, c, ccr, items[..|items| - 1]);
      PackedOrPlain(t, c, items[|items| - 1]);
    }
  }

  // ---------------------------------------------------------------- nothing is lost

  /** The original of item `i` is on the page or behind its reference. */
  ghost predicate Recoverable(t: Transforms, c: Config, items: seq<Item>, ccr: map<Text, Text>, i: nat)
    requires i < |items|
  {
    var shown := Window(t, c, items)[i];
    shown.content == items[i].content || (shown.ref.Some? && shown.ref.value in ccr && ccr[shown.ref.value] == items[i].content)
  }

  /** The item is shown as it is: too short, its route switched off, or its summary no shorter. */
  predicate Unfiled(t: Transforms, c: Config, item: Item) {
    || |item.content| < c.minChars
    || match t.classify(item.kind, item.content)
       case Json => !c.enableJson
       case Code => !c.enableCode
       case Prose => !c.enableProse || |t.summarize(item.content, c.summarySentences, item.score)| >= |item.content|
  }

  lemma UnfiledExactly(t: Transforms, c: Config, item: Item)
    ensures Pack(t, c, item).ref.None? <==> Unfiled(t, c, item)
    ensures Unfiled(t, c, item) ==> Pack(t, c, item).text == item.content
  {
    hide Tokens;
  }

  predicate Near(t: Transforms, c: Config, items: seq<Item>, i: nat, j: nat)
    requires i < |items| && j < |items|
  {
    t.similarity(Pack(t, c, items[i]).text, Pack(t, c, items[j]).text) >= c.dedupThreshold
  }

  /** Near some earlier item that is not itself suppressed. */
  ghost predicate Suppressed(t: Transforms, c: Config, items: seq<Item>, i: nat)
    requires i < |items|
    decreases i
  {
    c.enableDedup && exists j :: 0 <= j < i && !Suppressed(t, c, items, j) && Near(t, c, items, i, j)
  }

  /** `j` is the first item that is not suppressed and that `i` is near. */
  ghost predicate Keeper(t: Transforms, c: Config, items: seq<Item>, i: nat, j: nat)
    requires i < |items|
  {
    && c.enableDedup && j < i && !Suppressed(t, c, items, j) && Near(t, c, items, i, j)
    && forall k :: 0 <= k < j && !Suppressed(t, c, items, k) ==> !Near(t, c, items, i, k)
  }

  /** The pass suppresses exactly the suppressed items, and points each at its keeper. */
  lemma {:induction false} SuppressedExactly(t: Transforms, c: Config, items: seq<Item>, i: nat)
    requires i < |items|
    ensures WindowDups(t, c, items)[i].Some? <==> Suppressed(t, c, items, i)
    ensures forall j: nat :: WindowDups(t, c, items)[i] == Some(j) <==> Keeper(t, c, items, i, j)
    decreases i
  {
    hide Pack, Suppression;
    var d := WindowDups(t, c, items);
    forall j | 0 <= j < i
      ensures d[j].Some? <==> Suppressed(t, c, items, j)
    {
      SuppressedExactly(t, c, items, j);
    }
    if c.enableDedup && |items| > 1 {
      var texts := Texts(PackAll(t, c, items));
      DupsSuppress(t, c.dedupThreshold, texts, |items|);
      SettledAt(t, c.dedupThreshold, texts, d, i);
      forall j | 0 <= j < i
        ensures Close(t, c.dedupThreshold, texts, i, j) <==> Near(t, c, items, i, j)
      {
      }
      hide Dups, PackAll, Texts, Near;
      SettledTerms(t, c.dedupThreshold, texts, d, i);
      hide Settled, Close, Suppressed;
      KeeperTerms(t, c, items, texts, d, i);
    }
  }

  lemma SettledTerms(t: Transforms, threshold: real, texts: seq<Text>, d: seq<Option<nat>>, i: nat)
    requires i < |d| <= |texts| && Settled(t, threshold, texts, d, i)
    ensures forall j: nat :: d[i] == Some(j) <==>
              j < i && d[j].None? && Close(t, threshold, texts, i, j) && forall k :: 0 <= k < j && d[k].None? ==> !Close(t, threshold, texts, i, k)
    ensures d[i].Some? <==> exists j :: 0 <= j < i && d[j].None? && Close(t, threshold, texts, i, j)
  {
    hide Close;
  }

  lemma KeeperTerms(t: Transforms, c: Config, items: seq<Item>, texts: seq<Text>, d: seq<Option<nat>>, i: nat)
    requires c.enableDedup && i < |items| == |texts| == |d|
    requires forall j :: 0 <= j < i ==> (d[j].Some? <==> Suppressed(t, c, items, j))
    requires forall j :: 0 <= j < i ==> (Close(t, c.dedupThreshold, texts, i, j) <==> Near(t, c, items, i, j))
    requires forall j: nat :: d[i] == Some(j) <==>
               j < i && d[j].None? && Close(t, c.dedupThreshold, texts, i, j) && forall k :: 0 <= k < j && d[k].None? ==> !Close(t, c.dedupThreshold, texts, i, k)
    requires d[i].Some? <==> exists j :: 0 <= j < i && d[j].None? && Close(t, c.dedupThreshold, texts, i, j)
    ensures d[i].Some? <==> Suppressed(t, c, items, i)
    ensures forall j: nat :: d[i] == Some(j) <==> Keeper(t, c, items, i, j)
  {
    hide Close, Near;
    if d[i].Some? {
      var j := d[i].value;
      assert !Suppressed(t, c, items, j) && Near(t, c, items, i, j);
    }
    forall j: nat
      ensures d[i] == Some(j) <==> Keeper(t, c, items, i, j)
    {
      if Keeper(t, c, items, i, j) {
        forall k | 0 <= k < j && d[k].None?
          ensures !Close(t, c.dedupThreshold, texts, i, k)
        {
          assert !Suppressed(t, c, items, k);
        }
      }
    }
  }

  lemma SettledAt(t: Transforms, threshold: real, texts: seq<Text>, d: seq<Option<nat>>, i: nat)
    requires Suppression(t, threshold, texts, d) && i < |d|
    ensures Settled(t, threshold, texts, d, i)
  {
    hide Settled;
  }

  /**
   * An item's text is lost if and only if it was never filed, deduplication is on, and it is near an
   * earlier item that is shown in full, unless the line that replaces it happens to be its own text.
   */
  lemma LostExactly(t: Transforms, c: Config, items: seq<Item>, ccr: map<Text, Text>, i: nat)
    requires i < |items| && Resolves(t, c, items, ccr)
    ensures !Recoverable(t, c, items, ccr, i) <==>
            Unfiled(t, c, items[i]) && exists j: nat :: Keeper(t, c, items, i, j) && j < |items| && DUP_OF + items[j].uri != items[i].content
  {
    hide Pack, WindowDups, Tokens, StatOf, Keeper, Suppressed, Unfiled;
    PackedOrPlain(t, c, items[i]);
    UnfiledExactly(t, c, items[i]);
    SuppressedExactly(t, c, items, i);
    var dup := WindowDups(t, c, items)[i];
    if dup.Some? { assert Keeper(t, c, items, i, dup.value); }
  }

  /** No window under this configuration ever loses a text whose references resolve. */
  ghost predicate NothingLost(t: Transforms, c: Config) {
    forall items: seq<Item>, ccr: map<Text, Text>, i: nat :: i < |items| && Resolves(t, c, items, ccr) ==> Recoverable(t, c, items, ccr, i)
  }

  /** No text that goes unfiled is near anything that can be shown. */
  ghost predicate UnfiledAreApart(t: Transforms, c: Config) {
    forall a: Item, b: Item :: Unfiled(t, c, b) ==> t.similarity(b.content, Pack(t, c, a).text) < c.dedupThreshold
  }

  /** The configurations that never lose a text are exactly those without deduplication, or under which nothing unfiled can be near anything. */
  lemma NothingLostExactly(t: Transforms, c: Config)
    ensures NothingLost(t, c) <==> !c.enableDedup || UnfiledAreApart(t, c)
  {
    hide Recoverable, Resolves, Unfiled, Pack;
    if !c.enableDedup || UnfiledAreApart(t, c) {
      forall items: seq<Item>, ccr: map<Text, Text>, i: nat | i < |items| && Resolves(t, c, items, ccr)
        ensures Recoverable(t, c, items, ccr, i)
      {
        LostExactly(t, c, items, ccr, i);
        if Unfiled(t, c, items[i]) { NoKeeper(t, c, items, i); }
      }
    } else {
      var a: Item, b: Item :| Unfiled(t, c, b) && !(t.similarity(b.content, Pack(t, c, a).text) < c.dedupThreshold);
      PairLoses(t, c, a, b);
    }
  }

  lemma NoKeeper(t: Transforms, c: Config, items: seq<Item>, i: nat)
    requires i < |items| && Unfiled(t, c, items[i]) && (!c.enableDedup || UnfiledAreApart(t, c))
    ensures forall j: nat :: !Keeper(t, c, items, i, j)
  {
    hide Unfiled, Pack;
    UnfiledExactly(t, c, items[i]);
    if c.enableDedup {
      forall j: nat | j < i
        ensures !Near(t, c, items, i, j)
      {
        assert t.similarity(items[i].content, Pack(t, c, items[j]).text) < c.dedupThreshold;
      }
    }
  }

  lemma PairLoses(t: Transforms, c: Config, a: Item, b: Item)
    requires c.enableDedup && Unfiled(t, c, b) && t.similarity(b.content, Pack(t, c, a).text) >= c.dedupThreshold
    ensures !NothingLost(t, c)
  {
    var first := if DUP_OF + a.uri == b.content then a.(uri := a.uri + [0]) else a;
    assert |DUP_OF + (a.uri + [0])| != |DUP_OF + a.uri|;
    assert Pack(t, c, first) == Pack(t, c, a);
    UnfiledExactly(t, c, b);
    hide Pack, Unfiled, Recoverable;
    var items := [first, b];
    var ref := Pack(t, c, first).ref;
    var ccr: map<Text, Text> := if ref.Some? then map[ref.value := first.content] else map[];
    assert Resolves(t, c, items, ccr);
    assert !Suppressed(t, c, items, 0);
    assert Near(t, c, items, 1, 0);
    assert Keeper(t, c, items, 1, 0);
    LostExactly(t, c, items, ccr, 1);
  }

  /** So with a minimum length and a similarity under which the empty text is near itself, deduplication can lose text. */
  lemma DedupCanLoseText(t: Transforms, c: Config)
    requires c.enableDedup && c.minChars > 0 && t.similarity([], []) >= c.dedupThreshold
    ensures !NothingLost(t, c)
  {
    var b := Item([], 0.0, [], []);
    UnfiledExactly(t, c, b);
    PairLoses(t, c, b, b);
  }

  /** Two copies of a text shorter than the minimum: the second is replaced by a pointer and has no reference. */
  lemma ShortDuplicateIsLost(t: Transforms, c: Config, a: Item, b: Item, ccr: map<Text, Text>)
    requires c.enableDedup && a.content == b.content && |a.content| < c.minChars
    requires t.similarity(a.content, a.content) >= c.dedupThreshold && a.content != DUP_OF + a.uri
    ensures !Recoverable(t, c, [a, b], ccr, 1)
    ensures Window(t, c, [a, b])[1] == Shown(DUP_OF + a.uri, None)
  {
    var items := [a, b];
    var texts := Texts(PackAll(t, c, items));
    assert texts[0] == a.content && texts[1] == b.content;
    DupsSuppress(t, c.dedupThreshold, texts, 2);
    SettledMeans(t, c.dedupThreshold, texts, WindowDups(t, c, items), 0);
    SettledMeans(t, c.dedupThreshold, texts, WindowDups(t, c, items), 1);
    hide Tokens, StatOf, Dups, Settled, PackAll, Texts, Suppression;
  }

  // ---------------------------------------------------------------- tuning

  /** The size a configuration reaches on a sample. */
  function Size(out: seq<Shown>): nat {
    if out == [] then 0 else Size(out[..|out| - 1]) + Tokens(out[|out| - 1].content)
  }

  function Cost(t: Transforms, c: Config, sample: seq<Item>): nat {
    Size(Window(t, c, sample))
  }

  const KNOBS := 7

  function Knob(k: nat, up: bool, c: Config): Config
    requires k < KNOBS
  {
    if k == 0 then c.(dedupThreshold := if up then 0.95 else 0.70)
    else if k == 1 then c.(enableDedup := !c.enableDedup)
    else if k == 2 then c.(astSignatureCollapseAfter := if up then 12 else 4)
    else if k == 3 then c.(enableAstV2 := !c.enableAstV2)
    else if k == 4 then c.(summarySentences := if up then 0 else 6)
    else if k == 5 then c.(enableProse := !c.enableProse)
    else c.(minChars := if up then 10 else 60)
  }

  /** What is tried at step `n` from the best so far: each knob up, then down. */
  function Tried(t: Transforms, c: Config, sample: seq<Item>, n: nat): Config
    requires n < 2 * KNOBS
    decreases n, 1
  {
    Knob(n / 2, n % 2 == 0, Tuned(t, c, sample, n))
  }

  function Tuned(t: Transforms, c: Config, sample: seq<Item>, n: nat): Config
    requires n <= 2 * KNOBS
    decreases n, 0
  {
    if n == 0 then c
    else
      var best := Tuned(t, c, sample, n - 1);
      var candidate := Tried(t, c, sample, n - 1);
      if Cost(t, candidate, sample) < Cost(t, best, sample) then candidate else best
  }

  /** The tuned configuration is the original or one that was tried, and costs no more than the original and all that were tried. */
  lemma {:induction false} TunedIsCheapest(t: Transforms, c: Config, sample: seq<Item>, n: nat)
    requires n <= 2 * KNOBS
    ensures var best := Tuned(t, c, sample, n);
            && Cost(t, best, sample) <= Cost(t, c, sample)
            && (forall m :: 0 <= m < n ==> Cost(t, best, sample) <= Cost(t, Tried(t, c, sample, m), sample))
            && (best == c || exists m :: 0 <= m < n && best == Tried(t, c, sample, m))
  {
    hide Cost, Tried, Tuned;
    if n == 0 {
      TunedStart(t, c, sample);
    } else {
      TunedIsCheapest(t, c, sample, n - 1);
      TunedNext(t, c, sample, n);
      if Tuned(t, c, sample, n) != c {
        if Tuned(t, c, sample, n) != Tried(t, c, sample, n - 1) {
          var m :| 0 <= m < n - 1 && Tuned(t, c, sample, n - 1) == Tried(t, c, sample, m);
          assert Tuned(t, c, sample, n) == Tried(t, c, sample, m);
        }
      }
    }
  }

  lemma TunedStart(t: Transforms, c: Config, sample: seq<Item>)
    ensures Tuned(t, c, sample, 0) == c
  {
  }

  lemma TunedNext(t: Transforms, c: Config, sample: seq<Item>, n: nat)
    requires 0 < n <= 2 * KNOBS
    ensures var best, candidate := Tuned(t, c, sample, n - 1), Tried(t, c, sample, n - 1);
            Tuned(t, c, sample, n) == if Cost(t, candidate, sample) < Cost(t, best, sample) then candidate else best
  {
    hide Cost, Tried;
  }

  /** Tuning never touches the store's capacity or the structured-text switches. */
  lemma {:induction false} TuningKeepsCapacity(t: Transforms, c: Config, sample: seq<Item>, n: nat)
    requires n <= 2 * KNOBS
    ensures var best := Tuned(t, c, sample, n);
            best.ccrCapacity == c.ccrCapacity && best.enableJson == c.enableJson && best.enableCode == c.enableCode
  {
    hide Cost;
    if n > 0 { TuningKeepsCapacity(t, c, sample, n - 1); }
  }
}
