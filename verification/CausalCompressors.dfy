/** The compressor object: it files originals, folds near-duplicates and evicts, in place. */
module CausalCompressors {
  import opened Numbers
  import opened Results
  import opened Keys
  import Layers
  import opened Compressor

  class CausalCompressor {
    const t: Transforms
    const config: Config
    var ccr: map<Text, Text>
    var lastStats: seq<Stat>

    ghost predicate Valid()
      reads this
    {
      Keyed(t, ccr)
    }

    constructor (t: Transforms, config: Config)
      ensures Valid() && this.t == t && this.config == config && ccr == map[] && lastStats == []
    {
      this.t, this.config, ccr, lastStats := t, config, map[], [];
    }

    /** Whatever comes back was filed under this reference; for the reference of a text that no stored text collides with, it is that text. */
    method Retrieve(r: Text) returns (original: Option<Text>)
      requires Valid()
      ensures original.Some? <==> r in ccr
      ensures original.Some? ==> t.refOf(original.value) == r && ccr[r] == original.value
      ensures forall x :: t.refOf(x) == r && original.Some? && (forall k :: k in ccr && t.refOf(ccr[k]) == r ==> ccr[k] == x) ==> original == Some(x)
    {
      return if r in ccr then Some(ccr[r]) else None;
    }

    method Store(original: Text) returns (r: Text)
      requires Valid()
      modifies this`ccr
      ensures Valid() && r == t.refOf(original) && ccr == old(ccr)[r := original]
    {
      r := t.refOf(original);
      ccr := ccr[r := original];
    }

    /** Removes the least entry outside `keep` until the store fits or only kept entries remain. */
    method EnforceCcrCapacity(keep: set<Text>)
      requires Valid()
      modifies this`ccr
      ensures Valid() && Eviction(old(ccr), ccr, keep, config.ccrCapacity)
    {
      hide Less, Evicting;
      EvictingNone(ccr, keep);
      if config.ccrCapacity == 0 { return; }
      ghost var kept := ccr.Keys * keep;
      SubsetSize(kept, ccr.Keys);
      while |ccr| > config.ccrCapacity
        invariant Evicting(old(ccr), ccr, keep)
        invariant |old(ccr)| <= config.ccrCapacity ==> ccr == old(ccr)
        invariant |old(ccr)| > config.ccrCapacity ==> |ccr| >= Max(config.ccrCapacity, |kept|)
        invariant Valid()
        decreases |ccr|
      {
        var others := ccr.Keys - keep;
        if others == {} {
          EvictedAll(old(ccr), ccr, keep);
          break;
        }
        var victim := Layers.Least(others);
        EvictingOne(old(ccr), ccr, keep, victim);
        ccr := ccr - {victim};
        SubsetSize(kept, ccr.Keys);
      }
    }

    /** Routes, compresses and files one item; the capacity is the caller's business. */
    method CompressItemInner(item: Item) returns (p: Packed)
      requires Valid()
      modifies this`ccr
      ensures Valid() && p == Pack(t, config, item)
      ensures ccr == if p.ref.Some? then old(ccr)[p.ref.value := item.content] else old(ccr)
    {
      hide Tokens;
      var content := item.content;
      if |content| < config.minChars { return Unpacked(content); }
      var text := content;
      var algorithm := Passthrough;
      match t.classify(item.kind, content) {
        case Json =>
          if config.enableJson { text, algorithm := t.crush(content), Crusher; }
        case Code =>
          if config.enableCode { text, algorithm := t.skeletonize(content, config), Ast; }
        case Prose =>
          if config.enableProse {
            var summary := t.summarize(content, config.summarySentences, item.score);
            if |summary| < |content| { text, algorithm := summary, Summ; }
          }
      }
      var ref: Option<Text> := None;
      if algorithm != Passthrough {
        var r := Store(content);
        ref := Some(r);
      }
      return Packed(text, ref, StatOf(algorithm, Tokens(content), Tokens(text)));
    }

    method CompressItem(item: Item) returns (p: Packed)
      requires Valid()
      modifies this`ccr
      ensures Valid() && p == Pack(t, config, item)
      ensures p.ref.None? ==> ccr == old(ccr)
      ensures p.ref.Some? ==> Eviction(old(ccr)[p.ref.value := item.content], ccr, {p.ref.value}, config.ccrCapacity)
      ensures p.ref.Some? ==> p.ref.value in ccr && ccr[p.ref.value] == item.content
    {
      hide Pack, Less, Max;
      p := CompressItemInner(item);
      if p.ref.Some? { EnforceCcrCapacity({p.ref.value}); }
    }

    /** The dedup pass: each item in turn is compared with the kept items before it. */
    method MarkDuplicates(texts: seq<Text>) returns (dups: seq<Option<nat>>)
      ensures dups == Dups(t, config.dedupThreshold, texts, |texts|)
      ensures Suppression(t, config.dedupThreshold, texts, dups)
    {
      hide Suppression;
      var dupOf := new Option<nat>[|texts|](_ => None);
      var i := 0;
      while i < |texts|
        invariant 0 <= i <= |texts|
        invariant dupOf[..i] == Dups(t, config.dedupThreshold, texts, i)
        invariant forall k :: i <= k < |texts| ==> dupOf[k].None?
      {
        ghost var before := dupOf[..i];
        var j := 0;
        while j < i && !(dupOf[j].None? && t.similarity(texts[i], texts[j]) >= config.dedupThreshold)
          invariant 0 <= j <= i
          invariant FirstClose(t, config.dedupThreshold, texts, before, i, 0) == FirstClose(t, config.dedupThreshold, texts, before, i, j)
        {
          j := j + 1;
        }
        if j < i { dupOf[i] := Some(j); }
        assert dupOf[..i + 1] == before + [FirstClose(t, config.dedupThreshold, texts, before, i, 0)];
        i := i + 1;
      }
      assert dupOf[..] == dupOf[..|texts|];
      DupsSuppress(t, config.dedupThreshold, texts, |texts|);
      return dupOf[..];
    }

    method CompressWindow(items: seq<Item>) returns (out: seq<Shown>)
      requires Valid()
      modifies this`ccr, this`lastStats
      ensures Valid() && out == Window(t, config, items)
      ensures |lastStats| == |items| && forall i :: 0 <= i < |items| ==> lastStats[i] == Final(t, config, items, i).stat
      ensures Eviction(Filed(t, config, old(ccr), items), ccr, Refs(t, config, items), config.ccrCapacity)
      ensures Resolves(t, config, items, ccr) <==> NoCollision(t, config, items)
      ensures config.ccrCapacity > 0 ==> |ccr| <= Max(config.ccrCapacity, |Refs(t, config, items)|)
    {
      hide Pack, Keyed, Eviction, Tokens, StatOf, Dups, Less, Max, Suppression, Final, Filed, Resolves, NoCollision, PackAll, Texts;
      var packed := PackWindow(items);
      var dups: seq<Option<nat>> := seq(|items|, _ => None);
      if config.enableDedup && |items| > 1 { dups := MarkDuplicates(Texts(packed)); }
      var keep;
      out, lastStats, keep := Collect(items, packed, dups);
      EnforceCcrCapacity(keep);
      ReferencesResolveExactly(t, config, old(ccr), items, ccr);
      if config.ccrCapacity > 0 { StoreIsBounded(t, config, old(ccr), items, ccr); }
    }

    /** Puts placeholders in and gathers the output, its statistics and its references. */
    method Collect(items: seq<Item>, packed: seq<Packed>, dups: seq<Option<nat>>)
        returns (out: seq<Shown>, stats: seq<Stat>, keep: set<Text>)
      requires packed == PackAll(t, config, items) && dups == WindowDups(t, config, items)
      ensures out == Window(t, config, items)
      ensures |stats| == |items| && forall i :: 0 <= i < |items| ==> stats[i] == Final(t, config, items, i).stat
      ensures keep == Refs(t, config, items)
    {
      hide Pack, WindowDups, Tokens, StatOf;
      out, stats, keep := [], [], {};
      var i := 0;
      while i < |items|
        invariant 0 <= i <= |items| && |out| == |stats| == i
        invariant forall k :: 0 <= k < i ==> out[k] == Shown(Final(t, config, items, k).text, Final(t, config, items, k).ref)
        invariant forall k :: 0 <= k < i ==> stats[k] == Final(t, config, items, k).stat
        invariant keep == Refs(t, config, items[..i])
      {
        var p := packed[i];
        if p.ref.Some? { keep := keep + {p.ref.value}; }
        assert items[..i + 1][..i] == items[..i];
        if dups[i].Some? {
          var line := DUP_OF + items[dups[i].value].uri;
          p := Packed(line, p.ref, StatOf(Dedup, p.stat.tokensBefore, Tokens(line)));
        }
        assert p == Final(t, config, items, i);
        out, stats := out + [Shown(p.text, p.ref)], stats + [p.stat];
        i := i + 1;
      }
      assert items[..i] == items;
    }

    /** Packs and files every item, in order. */
    method PackWindow(items: seq<Item>) returns (packed: seq<Packed>)
      requires Valid()
      modifies this`ccr
      ensures Valid() && packed == PackAll(t, config, items)
      ensures ccr == Filed(t, config, old(ccr), items)
    {
      hide Pack, Keyed;
      packed := [];
      var i := 0;
      assert items[..0] == [];
      while i < |items|
        invariant 0 <= i <= |items| && Valid()
        invariant packed == PackAll(t, config, items[..i])
        invariant ccr == Filed(t, config, old(ccr), items[..i])
      {
        var p := CompressItemInner(items[i]);
        packed := packed + [p];
        assert items[..i + 1][..i] == items[..i];
        i := i + 1;
      }
      assert items[..i] == items;
    }

    method ClearCcr()
      modifies this`ccr
      ensures Valid() && ccr == map[]
    {
      ccr := map[];
    }

    /** What a configuration reaches on a sample, on a fresh compressor. */
    static method EvalConfig(t: Transforms, c: Config, sample: seq<Item>) returns (tokens: nat)
      ensures tokens == Cost(t, c, sample)
    {
      hide Window, Keyed, Eviction, Filed, Refs, Resolves, NoCollision, Max, Final, Tokens;
      var probe := new CausalCompressor(t, c);
      var out := probe.CompressWindow(sample);
      tokens := 0;
      var i := 0;
      while i < |out|
        invariant 0 <= i <= |out| && tokens == Size(out[..i])
      {
        assert out[..i + 1][..i] == out[..i];
        tokens := tokens + Tokens(out[i].content);
        i := i + 1;
      }
      assert out[..i] == out;
    }

    /** Greedy search over the knobs, each up and then down, keeping every strict gain. */
    method AutoTune(sample: seq<Item>) returns (best: Config)
      ensures best == Tuned(t, config, sample, 2 * KNOBS)
      ensures Cost(t, best, sample) <= Cost(t, config, sample)
      ensures forall m :: 0 <= m < 2 * KNOBS ==> Cost(t, best, sample) <= Cost(t, Tried(t, config, sample, m), sample)
      ensures best.ccrCapacity == config.ccrCapacity
    {
      hide Cost, Knob;
      best := config;
      var bestTokens := EvalConfig(t, best, sample);
      var step := 0;
      while step < 2 * KNOBS
        invariant 0 <= step <= 2 * KNOBS
        invariant best == Tuned(t, config, sample, step) && bestTokens == Cost(t, best, sample)
      {
        var candidate := Knob(step / 2, step % 2 == 0, best);
        var tokens := EvalConfig(t, candidate, sample);
        if tokens < bestTokens { bestTokens, best := tokens, candidate; }
        step := step + 1;
      }
      TunedIsCheapest(t, config, sample, 2 * KNOBS);
      TuningKeepsCapacity(t, config, sample, 2 * KNOBS);
    }
  }
}
