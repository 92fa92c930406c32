/** Which deletions of merged-away segments a crash may leave half done. */
module CompactionCrash {
  import opened Results
  import opened Keys
  import opened SegmentFile
  import opened Layers

  /** The merged segment of a compaction: live values only, tombstones dropped. */
  function Merged(layers: seq<Layer>): Layer {
    map k | k in Meaning(layers) :: Some(Meaning(layers)[k])
  }

  /** The old layers whose files are still on disk. */
  ghost function Survivors(layers: seq<Layer>, keep: set<nat>): seq<Layer> {
    if layers == [] then []
    else
      var n := |layers| - 1;
      Survivors(layers[..n], keep) + if n in keep then [layers[n]] else []
  }

  /** The directory after the merged segment is written (if anything is live) and only `keep` survives. */
  ghost function AfterDeletions(layers: seq<Layer>, keep: set<nat>): seq<Layer> {
    Survivors(layers, keep) + if Meaning(layers) == map[] then [] else [Merged(layers)]
  }

  /** Deleting oldest first leaves the newest files. */
  ghost predicate KeepsNewest(keep: set<nat>, n: nat) {
    forall i, j :: 0 <= i < j < n && i in keep ==> j in keep
  }

  lemma {:induction false} NothingSurvives(layers: seq<Layer>, keep: set<nat>)
    requires forall i :: 0 <= i < |layers| ==> i !in keep
    ensures Survivors(layers, keep) == []
  {
    if layers != [] {
      NothingSurvives(layers[..|layers| - 1], keep);
    }
  }

  /** A surviving suffix shows, for each key it has, the slot of the whole stack. */
  lemma {:induction false} SuffixShowsNewest(layers: seq<Layer>, keep: set<nat>)
    requires KeepsNewest(keep, |layers|)
    ensures var s := Stacked(Survivors(layers, keep));
            forall k :: k in s ==> k in Stacked(layers) && Stacked(layers)[k] == s[k]
  {
    if layers != [] {
      var n := |layers| - 1;
      if n in keep {
        SuffixShowsNewest(layers[..n], keep);
        StackedAppend(Survivors(layers[..n], keep), [layers[n]]);
        StackedOne(layers[n]);
      } else {
        NothingSurvives(layers[..n], keep);
      }
    }
  }

  lemma MergedMeaning(layers: seq<Layer>, survivors: seq<Layer>)
    requires var s := Stacked(survivors);
             forall k :: k in s ==> k in Stacked(layers) && Stacked(layers)[k] == s[k]
    ensures Meaning(survivors + if Meaning(layers) == map[] then [] else [Merged(layers)]) == Meaning(layers)
  {
    hide Stacked;
    var m := Merged(layers);
    if Meaning(layers) == map[] {
      assert survivors + [] == survivors;
    } else {
      StackedAppend(survivors, [m]);
      StackedOne(m);
    }
  }

  /** A crash that keeps only the newest old files loses nothing, and resurrects nothing. */
  lemma OldestFirstIsSafe(layers: seq<Layer>, keep: set<nat>)
    requires KeepsNewest(keep, |layers|)
    ensures Meaning(AfterDeletions(layers, keep)) == Meaning(layers)
  {
    hide Survivors, Meaning, Merged;
    SuffixShowsNewest(layers, keep);
    MergedMeaning(layers, Survivors(layers, keep));
  }

  /** The crash points of an unbroken deletion loop: the oldest `j` files are gone. */
  lemma DeletedPrefixIsSafe(layers: seq<Layer>, j: nat)
    requires j <= |layers|
    ensures Meaning(layers[j..] + if Meaning(layers) == map[] then [] else [Merged(layers)]) == Meaning(layers)
  {
    hide Stacked, Meaning, Merged;
    assert layers == layers[..j] + layers[j..];
    StackedAppend(layers[..j], layers[j..]);
    MergedMeaning(layers, layers[j..]);
  }

  /** `keep` is a crash point that every content of `n` flushed segments survives. */
  ghost predicate AlwaysSafe(n: nat, keep: set<nat>) {
    forall layers: seq<Layer> ::
      |layers| == n && (forall i :: 0 <= i < n ==> layers[i] != map[])
      ==> Meaning(AfterDeletions(layers, keep)) == Meaning(layers)
  }

  const VICTIM: Key := []
  const BYSTANDER: Key := [0x61]

  /** One old value at `i`, its tombstone at `j`, an unrelated key everywhere else. */
  ghost function ResurrectionLayer(t: nat, i: nat, j: nat): Layer {
    if t == i then map[VICTIM := Some([])]
    else if t == j then map[VICTIM := None]
    else map[BYSTANDER := Some([])]
  }

  ghost function Resurrection(n: nat, i: nat, j: nat): seq<Layer> {
    seq(n, t requires 0 <= t < n => ResurrectionLayer(t, i, j))
  }

  ghost function Below(n: nat): (s: set<nat>)
    ensures forall t: nat :: t in s <==> t < n
  {
    if n == 0 then {} else Below(n - 1) + {n - 1}
  }

  lemma {:induction false} SurvivorSlot(layers: seq<Layer>, keep: set<nat>, i: nat, key: Key)
    requires i < |layers| && i in keep && key in layers[i]
    requires forall t :: i < t < |layers| && t in keep ==> key !in layers[t]
    ensures key in Stacked(Survivors(layers, keep)) && Stacked(Survivors(layers, keep))[key] == layers[i][key]
  {
    var n := |layers| - 1;
    StackedOne(layers[n]);
    StackedAppend(Survivors(layers[..n], keep), if n in keep then [layers[n]] else []);
    if i < n {
      SurvivorSlot(layers[..n], keep, i, key);
    }
  }

  lemma {:induction false} EveryLayerSurvives(layers: seq<Layer>, keep: set<nat>)
    requires forall i :: 0 <= i < |layers| ==> i in keep
    ensures Survivors(layers, keep) == layers
  {
    if layers != [] {
      var n := |layers| - 1;
      EveryLayerSurvives(layers[..n], keep);
      assert layers == layers[..n] + [layers[n]];
    }
  }

  /** Keeping an older file behind a deleted newer one can bring a deleted key back. */
  lemma SkippedDeletionResurrects(n: nat, keep: set<nat>, i: nat, j: nat)
    requires i < j < n && i in keep && j !in keep
    ensures !AlwaysSafe(n, keep)
  {
    hide Survivors, Stacked, AlwaysSafe;
    var layers := Resurrection(n, i, j);
    var all := Below(n);
    SurvivorSlot(layers, keep, i, VICTIM);
    SurvivorSlot(layers, all, j, VICTIM);
    EveryLayerSurvives(layers, all);
    assert VICTIM !in Meaning(layers);
    var s := Survivors(layers, keep);
    if Meaning(layers) == map[] {
      assert s + [] == s;
    } else {
      StackedAppend(s, [Merged(layers)]);
      StackedOne(Merged(layers));
    }
    assert VICTIM in Meaning(AfterDeletions(layers, keep));
    forall t | 0 <= t < n
      ensures layers[t] != map[]
    {
      assert layers[t] == ResurrectionLayer(t, i, j);
      assert VICTIM in layers[t] || BYSTANDER in layers[t];
    }
    Unsafe(n, keep, layers);
  }

  lemma Unsafe(n: nat, keep: set<nat>, layers: seq<Layer>)
    requires |layers| == n && forall i :: 0 <= i < n ==> layers[i] != map[]
    requires Meaning(AfterDeletions(layers, keep)) != Meaning(layers)
    ensures !AlwaysSafe(n, keep)
  {
  }

  /** The exact crash condition: safe for every content if and only if deletions went oldest first. */
  lemma DeletionOrderIsExact(n: nat, keep: set<nat>)
    ensures AlwaysSafe(n, keep) <==> KeepsNewest(keep, n)
  {
    hide Survivors, Meaning, AfterDeletions;
    if KeepsNewest(keep, n) {
      forall layers: seq<Layer> | |layers| == n
        ensures Meaning(AfterDeletions(layers, keep)) == Meaning(layers)
      {
        OldestFirstIsSafe(layers, keep);
      }
    } else {
      var i, j :| 0 <= i < j < n && i in keep && j !in keep;
      SkippedDeletionResurrects(n, keep, i, j);
    }
  }
}
