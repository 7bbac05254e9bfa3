/** The four compactions as transformations of the in-memory state. */
module Compaction {
  import opened Base
  import opened Sorting
  import opened Memory
  import opened Refinement
  import opened Merging
  import opened Tiering
  import opened TierTheorems
  import opened Protocol
  import Safety

  function Sizes(m: Mem): (r: seq<nat>)
    ensures |r| == |m.segments| && forall i :: 0 <= i < |r| ==> r[i] == |m.segments[i]|
  {
    seq(|m.segments|, i requires 0 <= i < |m.segments| => |m.segments[i]|)
  }

  function UpTo(n: nat): (r: seq<nat>)
    ensures |r| == n && forall i :: 0 <= i < n ==> r[i] == i
  {
    seq(n, i => i)
  }

  // ---------------------------------------------------------------------------
  // Every merge of two or more segments shortens the list
  // ---------------------------------------------------------------------------

  lemma MergeCount(m: Mem, indices: seq<nat>)
    requires Group(m, indices)
    ensures |MergeGroup(m, indices).segments| == |MergeGroup(m, indices).segmentIds|
    ensures |MergeGroup(m, indices).segments| + |indices|
         == |m.segments| + (if Merged(m, indices) == [] then 0 else 1)
  {
    IndicesCount(indices);
    KeptLength(|m.segments|, Indices(indices));
  }

  /** A merge leaves the other segments in order under their ids; its output, unless it is
      empty, comes last, under a new id. */
  lemma MergeShape(m: Mem, indices: seq<nat>) returns (kept: seq<nat>)
    requires Group(m, indices)
    ensures Increasing(kept) && forall i: nat :: i in kept <==> i < |m.segments| && i !in indices
    ensures Within(kept, |m.segments|)
    ensures var m', out := MergeGroup(m, indices), Merged(m, indices);
            && m'.segments == Pick(m.segments, kept) + (if out == [] then [] else [out])
            && m'.segmentIds == Pick(m.segmentIds, kept) + (if out == [] then [] else [m.nextSegId])
            && m'.nextSegId == m.nextSegId + (if out == [] then 0 else 1)
            && m'.buffer == m.buffer && m'.bufferIds == m.bufferIds && m'.tombstones == m.tombstones
  {
    kept := KeptIndices(m, indices);
    assert KeptIndices(Alloc(m), indices) == kept;
  }

  // ---------------------------------------------------------------------------
  // compact_tiers
  // ---------------------------------------------------------------------------

  /** A selected group is a legal argument of `merge_group`. */
  lemma SelectedIsGroup(m: Mem, threshold: nat, cfg: TierConfig)
    requires |m.segments| == |m.segmentIds| && SelectGroup(Sizes(m), threshold, cfg).Some?
    ensures Group(m, SelectGroup(Sizes(m), threshold, cfg).value)
    ensures |SelectGroup(Sizes(m), threshold, cfg).value| >= 2
  {
    GroupBounds(Sizes(m), threshold, cfg);
  }

  /** After applying an add, the buffer is full and sealing it makes a tier eligible. */
  predicate MergeDue(m: Mem, threshold: nat, cfg: TierConfig) {
    |m.buffer| >= threshold && SelectGroup(Sizes(Seal(m)), threshold, cfg).Some?
  }

  /** The merge loop: the resulting state and the number of items written. */
  function TierLoop(m: Mem, threshold: nat, cfg: TierConfig): (Mem, nat)
    requires |m.segments| == |m.segmentIds|
    decreases |m.segments|
  {
    match SelectGroup(Sizes(m), threshold, cfg)
    case None => (m, 0)
    case Some(g) =>
      SelectedIsGroup(m, threshold, cfg);
      MergeCount(m, g);
      var (m', moved) := TierLoop(MergeGroup(m, g), threshold, cfg);
      (m', |Merged(m, g)| + moved)
  }

  /** How many merges the loop makes. */
  function TierMerges(m: Mem, threshold: nat, cfg: TierConfig): nat
    requires |m.segments| == |m.segmentIds|
    decreases |m.segments|
  {
    match SelectGroup(Sizes(m), threshold, cfg)
    case None => 0
    case Some(g) =>
      SelectedIsGroup(m, threshold, cfg);
      MergeCount(m, g);
      1 + TierMerges(MergeGroup(m, g), threshold, cfg)
  }

  /** Merging the groups `gs` one after the other leads from `m` to `m'` and writes `moved`
      items; each is a `step` of the state before it, and the last state is a `stop`. */
  ghost predicate MergeRun(m: Mem, gs: seq<seq<nat>>, m': Mem, moved: nat,
                           step: (Mem, seq<nat>) -> bool, stop: Mem -> bool)
    decreases |gs|
  {
    if gs == [] then m' == m && moved == 0 && stop(m)
    else
      && Group(m, gs[0]) && step(m, gs[0]) && |Merged(m, gs[0])| <= moved
      && MergeRun(MergeGroup(m, gs[0]), gs[1..], m', moved - |Merged(m, gs[0])|, step, stop)
  }

  lemma MergeRunFirst(m: Mem, gs: seq<seq<nat>>, m': Mem, moved: nat, total: nat,
                      step: (Mem, seq<nat>) -> bool, stop: Mem -> bool)
    requires gs != [] && Group(m, gs[0]) && step(m, gs[0]) && total == |Merged(m, gs[0])| + moved
    requires MergeRun(MergeGroup(m, gs[0]), gs[1..], m', moved, step, stop)
    ensures MergeRun(m, gs, m', total, step, stop)
  {
  }

  /** All that the caps allow of the smallest usable tier. */
  ghost function TierStep(threshold: nat, cfg: TierConfig): (Mem, seq<nat>) -> bool {
    (m: Mem, g) => SmallestTier(g, Sizes(m), threshold, cfg)
  }

  /** No tier is usable. */
  ghost function TierStop(threshold: nat, cfg: TierConfig): Mem -> bool {
    (m: Mem) => NothingUsable(Sizes(m), threshold, cfg)
  }

  /** The selection of a merge is a step, and no selection a stop. */
  ghost predicate TierLaw(step: (Mem, seq<nat>) -> bool, stop: Mem -> bool, threshold: nat, cfg: TierConfig) {
    forall m: Mem :: match SelectGroup(Sizes(m), threshold, cfg)
                     case None => stop(m)
                     case Some(g) => step(m, g)
  }

  lemma {:induction false} TierLoopBy(m: Mem, threshold: nat, cfg: TierConfig,
                                      step: (Mem, seq<nat>) -> bool, stop: Mem -> bool) returns (gs: seq<seq<nat>>)
    requires |m.segments| == |m.segmentIds| && TierLaw(step, stop, threshold, cfg)
    ensures MergeRun(m, gs, TierLoop(m, threshold, cfg).0, TierLoop(m, threshold, cfg).1, step, stop)
    ensures |gs| == TierMerges(m, threshold, cfg)
    decreases |m.segments|
  {
    var g := SelectGroup(Sizes(m), threshold, cfg);
    if g.None? {
      gs := [];
    } else {
      TierLoopNext(m, g.value, threshold, cfg);
      var rest := TierLoopBy(MergeGroup(m, g.value), threshold, cfg, step, stop);
      gs := [g.value] + rest;
      assert gs[0] == g.value && gs[1..] == rest;
      MergeRunFirst(m, gs, TierLoop(m, threshold, cfg).0, TierLoop(MergeGroup(m, g.value), threshold, cfg).1,
                    TierLoop(m, threshold, cfg).1, step, stop);
    }
  }

  lemma TierLoopNext(m: Mem, g: seq<nat>, threshold: nat, cfg: TierConfig)
    requires |m.segments| == |m.segmentIds| && SelectGroup(Sizes(m), threshold, cfg) == Some(g)
    ensures Group(m, g) && |MergeGroup(m, g).segments| == |MergeGroup(m, g).segmentIds| < |m.segments|
    ensures TierLoop(m, threshold, cfg).0 == TierLoop(MergeGroup(m, g), threshold, cfg).0
    ensures TierLoop(m, threshold, cfg).1 == |Merged(m, g)| + TierLoop(MergeGroup(m, g), threshold, cfg).1
    ensures TierMerges(m, threshold, cfg) == 1 + TierMerges(MergeGroup(m, g), threshold, cfg)
  {
    SelectedIsGroup(m, threshold, cfg);
    MergeCount(m, g);
  }

  /** `compact_tiers` takes such steps until it has to stop. */
  lemma TierLoopRuns(m: Mem, threshold: nat, cfg: TierConfig) returns (gs: seq<seq<nat>>)
    requires |m.segments| == |m.segmentIds|
    ensures MergeRun(m, gs, TierLoop(m, threshold, cfg).0, TierLoop(m, threshold, cfg).1,
                     TierStep(threshold, cfg), TierStop(threshold, cfg))
    ensures |gs| == TierMerges(m, threshold, cfg)
  {
    TierLawHolds(threshold, cfg);
    gs := TierLoopBy(m, threshold, cfg, TierStep(threshold, cfg), TierStop(threshold, cfg));
  }

  lemma TierLawHolds(threshold: nat, cfg: TierConfig)
    ensures TierLaw(TierStep(threshold, cfg), TierStop(threshold, cfg), threshold, cfg)
  {
    forall m: Mem ensures match SelectGroup(Sizes(m), threshold, cfg)
                          case None => TierStop(threshold, cfg)(m)
                          case Some(g) => TierStep(threshold, cfg)(m, g)
    {
      SelectExact(Sizes(m), threshold, cfg);
    }
  }

  lemma {:induction false} TierShape(m: Mem, threshold: nat, cfg: TierConfig)
    requires |m.segments| == |m.segmentIds|
    ensures |TierLoop(m, threshold, cfg).0.segments| == |TierLoop(m, threshold, cfg).0.segmentIds|
    decreases |m.segments|
  {
    match SelectGroup(Sizes(m), threshold, cfg) {
      case None =>
      case Some(g) =>
        SelectedIsGroup(m, threshold, cfg);
        MergeCount(m, g);
        TierShape(MergeGroup(m, g), threshold, cfg);
    }
  }

  function CompactTiers(m: Mem, threshold: nat, cfg: TierConfig): Mem
    requires |m.segments| == |m.segmentIds|
  {
    TierLoop(Seal(m), threshold, cfg).0
  }

  /** A live add with auto-compaction on: a sealed buffer may trigger the merge loop. */
  function AddAuto(m: Mem, op: Op, threshold: nat, cfg: TierConfig): Mem
    requires |m.segments| == |m.segmentIds|
  {
    ApplyTables(m, op);
    var m1 := Apply(m, op);
    if |m1.buffer| >= threshold then TierLoop(Seal(m1), threshold, cfg).0 else m1
  }

  /** With auto-compaction an add changes no segment until the buffer is full; then it is
      sealed, and the tiers are merged until none is usable. */
  lemma AutoAddRuns(m: Mem, op: Op, threshold: nat, cfg: TierConfig) returns (gs: seq<seq<nat>>, moved: nat)
    requires |m.segments| == |m.segmentIds| && op.Add?
    ensures var m1, m' := Apply(m, op), AddAuto(m, op, threshold, cfg);
            if |m1.buffer| < Max(1, threshold) then m' == m1
            else MergeRun(Seal(m1), gs, m', moved, TierStep(threshold, cfg), TierStop(threshold, cfg))
  {
    ApplyTables(m, op);
    var m1 := Apply(m, op);
    assert m1.buffer != [];
    gs := TierLoopRuns(Seal(m1), threshold, cfg);
    moved := TierLoop(Seal(m1), threshold, cfg).1;
  }

  /** The segment number `s` of `m`, with its id, is also in `m'`. */
  ghost predicate Survives(m: Mem, s: nat, m': Mem)
    requires |m.segments| == |m.segmentIds| && s < |m.segments|
  {
    exists t: nat :: t < |m'.segments| && t < |m'.segmentIds|
                     && m'.segments[t] == m.segments[s] && m'.segmentIds[t] == m.segmentIds[s]
  }

  lemma OutsideSurvives(m: Mem, indices: seq<nat>, s: nat)
    requires Group(m, indices) && s < |m.segments| && s !in indices
    ensures Survives(m, s, MergeGroup(m, indices))
  {
    var m' := MergeGroup(m, indices);
    KeptPosition(m, indices, s);
    var t: nat :| t < |KeptIndices(m, indices)| && KeptIndices(m, indices)[t] == s;
    assert KeptIndices(Alloc(m), indices) == KeptIndices(m, indices);
    assert m'.segments[t] == m.segments[s] && m'.segmentIds[t] == m.segmentIds[s];
  }

  /** `compact_tiers` preserves the map, leaves nothing eligible, and never touches a
      segment above half of the cap. */
  lemma {:induction false} TierLoopOk(m: Mem, threshold: nat, cfg: TierConfig, r: RefMap)
    requires MemInv(m) && Represents(m, r)
    ensures var m' := TierLoop(m, threshold, cfg).0;
            && MemInv(m') && Represents(m', r) && m'.buffer == m.buffer
            && SelectGroup(Sizes(m'), threshold, cfg) == None && NothingUsable(Sizes(m'), threshold, cfg)
            && |m'.segments| <= |m.segments|
            && forall s: nat :: s < |m.segments| && Frozen(|m.segments[s]|, cfg) ==> Survives(m, s, m')
    decreases |m.segments|
  {
    match SelectGroup(Sizes(m), threshold, cfg) {
      case None =>
        SelectExact(Sizes(m), threshold, cfg);
        forall s: nat | s < |m.segments| ensures Survives(m, s, m) {
          assert m.segments[s] == m.segments[s];
        }
      case Some(g) =>
        SelectedIsGroup(m, threshold, cfg);
        MergeCount(m, g);
        MergeGroupRefines(m, g, r);
        var m1 := MergeGroup(m, g);
        TierLoopOk(m1, threshold, cfg, r);
        var m' := TierLoop(m1, threshold, cfg).0;
        GroupBounds(Sizes(m), threshold, cfg);
        forall s: nat | s < |m.segments| && Frozen(|m.segments[s]|, cfg) ensures Survives(m, s, m') {
          OutsideSurvives(m, g, s);
          var t: nat :| t < |m1.segments| && m1.segments[t] == m.segments[s] && m1.segmentIds[t] == m.segmentIds[s];
          assert Survives(m1, t, m');
        }
    }
  }

  lemma {:induction false} ConcatWithin(m: Mem, g: seq<nat>, parts: seq<Segment>)
    requires |parts| == |g| && Within(g, |m.segments|)
    requires forall i :: 0 <= i < |g| ==> |parts[i]| <= |m.segments[g[i]]|
    ensures |Concat(parts)| <= SumAt(Sizes(m), g)
  {
    if g != [] {
      var n := |g| - 1;
      ConcatWithin(m, g[..n], parts[..n]);
    }
  }

  /** A merge never writes more items than its inputs hold. */
  lemma MergedWithin(m: Mem, g: seq<nat>)
    requires MemInv(m) && Group(m, g)
    ensures |Merged(m, g)| <= SumAt(Sizes(m), g)
  {
    MergedIsLive(m, g);
    ConcatWithin(m, g, LiveParts(m, g));
  }

  /** Every tier merge writes at most `max_merged_len` items. */
  lemma TierMergeCapped(m: Mem, threshold: nat, cfg: TierConfig)
    requires MemInv(m) && SelectGroup(Sizes(m), threshold, cfg).Some?
    ensures var g := SelectGroup(Sizes(m), threshold, cfg).value;
            Group(m, g) && |Merged(m, g)| <= cfg.maxMergedLen
  {
    SelectedIsGroup(m, threshold, cfg);
    GroupBounds(Sizes(m), threshold, cfg);
    MergedWithin(m, SelectGroup(Sizes(m), threshold, cfg).value);
  }

  lemma MergeSegmentsFrom(m: Mem, g: seq<nat>, t: nat)
    requires Group(m, g) && t < |MergeGroup(m, g).segments|
    ensures MergeGroup(m, g).segments[t] in m.segments || MergeGroup(m, g).segments[t] == Merged(m, g)
  {
    var kept := KeptIndices(m, g);
    assert KeptIndices(Alloc(m), g) == kept;
    if t < |kept| { assert MergeGroup(m, g).segments[t] == m.segments[kept[t]]; }
  }

  /** So after `compact_tiers` every segment is an old one or within the cap. */
  lemma {:induction false} TierLoopCapped(m: Mem, threshold: nat, cfg: TierConfig, r: RefMap)
    requires MemInv(m) && Represents(m, r)
    ensures forall seg :: seg in TierLoop(m, threshold, cfg).0.segments ==>
              seg in m.segments || |seg| <= cfg.maxMergedLen
    decreases |m.segments|
  {
    match SelectGroup(Sizes(m), threshold, cfg) {
      case None =>
      case Some(g) =>
        TierMergeCapped(m, threshold, cfg);
        SelectedIsGroup(m, threshold, cfg);
        MergeCount(m, g);
        MergeGroupRefines(m, g, r);
        TierLoopCapped(MergeGroup(m, g), threshold, cfg, r);
        forall seg | seg in MergeGroup(m, g).segments ensures seg in m.segments || |seg| <= cfg.maxMergedLen {
          var t :| 0 <= t < |MergeGroup(m, g).segments| && MergeGroup(m, g).segments[t] == seg;
          MergeSegmentsFrom(m, g, t);
        }
    }
  }

  // ---------------------------------------------------------------------------
  // force_merge_to
  // ---------------------------------------------------------------------------

  /** All segments as candidates, in list order. */
  function AllCands(sizes: seq<nat>): (r: seq<Cand>)
    ensures |r| == |sizes| && forall i :: 0 <= i < |sizes| ==> r[i] == Cand(sizes[i], sizes[i] as real, i)
  {
    seq(|sizes|, i requires 0 <= i < |sizes| => Cand(sizes[i], sizes[i] as real, i))
  }

  /** The next group of the consolidation: the smallest segments, one more than there
      are segments to remove, up to the merge width. */
  function ForceGroup(sizes: seq<nat>, maxSegments: nat, maxMerge: nat): seq<nat>
    requires |sizes| > maxSegments
  {
    var over := |sizes| - maxSegments;
    var k := Min(Min(over + 1, Max(maxMerge, 2)), |sizes|);
    Positions(StableSort(AllCands(sizes), Raw()))[..k]
  }

  function Min(a: nat, b: nat): nat { if a < b then a else b }

  ghost predicate Before(a: Cand, b: Cand) { a.raw < b.raw || (a.raw == b.raw && a.idx < b.idx) }

  ghost predicate Ordered(cs: seq<Cand>) { forall i, j :: 0 <= i < j < |cs| ==> Before(cs[i], cs[j]) }

  lemma {:induction false} InsertOrdered(cs: seq<Cand>, c: Cand)
    requires Ordered(cs) && forall e :: e in cs ==> e.idx < c.idx
    ensures Ordered(InsertSorted(cs, c, Raw()))
  {
    if cs != [] {
      var n := |cs| - 1;
      if !(Raw()(cs[n]) <= Raw()(c)) {
        var r := InsertSorted(cs[..n], c, Raw());
        InsertOrdered(cs[..n], c);
        forall i | 0 <= i < |r| ensures Before(r[i], cs[n]) { assert r[i] in r; }
      } else {
        forall i | 0 <= i < |cs| ensures Before(cs[i], c) { assert cs[i] in cs && (i < n ==> Before(cs[i], cs[n])); }
      }
    }
  }

  lemma {:induction false} SortOrders(cs: seq<Cand>)
    requires forall i, j :: 0 <= i < j < |cs| ==> cs[i].idx < cs[j].idx
    ensures Ordered(StableSort(cs, Raw()))
  {
    if cs != [] {
      var n := |cs| - 1;
      SortOrders(cs[..n]);
      forall e | e in StableSort(cs[..n], Raw()) ensures e.idx < cs[n].idx { assert e in cs[..n]; }
      InsertOrdered(StableSort(cs[..n], Raw()), cs[n]);
    }
  }

  /** The segment at `i` is smaller than the one at `j`, or as large and older. */
  ghost predicate Smaller(sizes: seq<nat>, i: nat, j: nat)
    requires i < |sizes| && j < |sizes|
  {
    sizes[i] < sizes[j] || (sizes[i] == sizes[j] && i < j)
  }

  /** The `|g|` smallest segments, smallest first, older ones first among equals. */
  ghost predicate SmallestFirst(g: seq<nat>, sizes: seq<nat>) {
    && Within(g, |sizes|)
    && (forall a, b :: 0 <= a < b < |g| ==> Smaller(sizes, g[a], g[b]))
    && (forall a, j: nat :: 0 <= a < |g| && j < |sizes| && j !in g ==> Smaller(sizes, g[a], j))
  }

  /** One more than there are segments too many, within the merge width and what there is. */
  ghost predicate ForceWidth(k: nat, n: nat, maxSegments: nat, maxMerge: nat) {
    && k <= n - maxSegments + 1 && (k <= maxMerge || k <= 2) && k <= n
    && (k == n - maxSegments + 1 || k == n || (k == maxMerge && k >= 2) || (k == 2 && maxMerge < 2))
  }

  /** `force_merge_to` merges the smallest segments, as many as it needs and may. */
  lemma ForceGroupExact(sizes: seq<nat>, maxSegments: nat, maxMerge: nat)
    requires |sizes| > maxSegments
    ensures var g := ForceGroup(sizes, maxSegments, maxMerge);
            SmallestFirst(g, sizes) && ForceWidth(|g|, |sizes|, maxSegments, maxMerge)
  {
    var all := AllCands(sizes);
    var sorted := StableSort(all, Raw());
    var g := ForceGroup(sizes, maxSegments, maxMerge);
    SortOrders(all);
    forall i | 0 <= i < |sorted| ensures sorted[i].idx < |sizes| && sorted[i].raw == sizes[sorted[i].idx] {
      assert sorted[i] in all;
    }
    forall a, j: nat | 0 <= a < |g| && j < |sizes| && j !in g ensures Smaller(sizes, g[a], j) {
      assert all[j] in sorted;
      var t :| 0 <= t < |sorted| && sorted[t] == all[j];
      assert sorted[t].idx == j && forall b :: 0 <= b < |g| ==> g[b] != j;
      assert t >= |g| && Before(sorted[a], sorted[t]);
    }
    forall a, b | 0 <= a < b < |g| ensures Smaller(sizes, g[a], g[b]) { assert Before(sorted[a], sorted[b]); }
  }

  /** The smallest segments, as many as needed and allowed, while there are too many. */
  ghost function ForceStep(maxSegments: nat, maxMerge: nat): (Mem, seq<nat>) -> bool {
    (m: Mem, g) => |m.segments| > maxSegments && SmallestFirst(g, Sizes(m))
                   && ForceWidth(|g|, |m.segments|, maxSegments, maxMerge)
  }

  ghost function ForceStop(maxSegments: nat): Mem -> bool { (m: Mem) => |m.segments| <= maxSegments }

  ghost predicate ForceLaw(step: (Mem, seq<nat>) -> bool, stop: Mem -> bool, maxSegments: nat, maxMerge: nat) {
    forall m: Mem :: if |m.segments| > maxSegments then step(m, ForceGroup(Sizes(m), maxSegments, maxMerge))
                     else stop(m)
  }

  lemma {:induction false} ForceLoopBy(m: Mem, maxSegments: nat, maxMerge: nat,
                                       step: (Mem, seq<nat>) -> bool, stop: Mem -> bool)
    returns (gs: seq<seq<nat>>, moved: nat)
    requires |m.segments| == |m.segmentIds| && maxSegments >= 2 && ForceLaw(step, stop, maxSegments, maxMerge)
    ensures MergeRun(m, gs, ForceLoop(m, maxSegments, maxMerge), moved, step, stop)
    decreases |m.segments|
  {
    if |m.segments| <= maxSegments {
      gs, moved := [], 0;
    } else {
      var g := ForceGroup(Sizes(m), maxSegments, maxMerge);
      ForceGroupOk(m, maxSegments, maxMerge);
      MergeCount(m, g);
      var rest, less := ForceLoopBy(MergeGroup(m, g), maxSegments, maxMerge, step, stop);
      gs, moved := [g] + rest, |Merged(m, g)| + less;
      assert gs[0] == g && gs[1..] == rest;
      MergeRunFirst(m, gs, ForceLoop(m, maxSegments, maxMerge), less, moved, step, stop);
    }
  }

  lemma ForceLawHolds(maxSegments: nat, maxMerge: nat)
    ensures ForceLaw(ForceStep(maxSegments, maxMerge), ForceStop(maxSegments), maxSegments, maxMerge)
  {
    forall m: Mem | |m.segments| > maxSegments
      ensures ForceStep(maxSegments, maxMerge)(m, ForceGroup(Sizes(m), maxSegments, maxMerge))
    {
      ForceGroupExact(Sizes(m), maxSegments, maxMerge);
    }
  }

  /** `force_merge_to` takes such steps, and stops as soon as there are few enough. */
  lemma ForceLoopRuns(m: Mem, maxSegments: nat, maxMerge: nat) returns (gs: seq<seq<nat>>, moved: nat)
    requires |m.segments| == |m.segmentIds| && maxSegments >= 2
    ensures MergeRun(m, gs, ForceLoop(m, maxSegments, maxMerge), moved,
                     ForceStep(maxSegments, maxMerge), ForceStop(maxSegments))
  {
    ForceLawHolds(maxSegments, maxMerge);
    gs, moved := ForceLoopBy(m, maxSegments, maxMerge, ForceStep(maxSegments, maxMerge), ForceStop(maxSegments));
  }



  lemma ForceGroupOk(m: Mem, maxSegments: nat, maxMerge: nat)
    requires |m.segments| == |m.segmentIds| && |m.segments| > maxSegments >= 2
    ensures var g := ForceGroup(Sizes(m), maxSegments, maxMerge);
            Group(m, g) && 2 <= |g| <= |m.segments| - maxSegments + 1 && |g| <= Max(maxMerge, 2)
  {
    var all := AllCands(Sizes(m));
    var sorted := StableSort(all, Raw());
    SortDistinct(all, Raw());
    forall i | 0 <= i < |sorted| ensures sorted[i].idx < |m.segments| {
      assert sorted[i] in all;
    }
  }

  function ForceLoop(m: Mem, maxSegments: nat, maxMerge: nat): Mem
    requires |m.segments| == |m.segmentIds| && maxSegments >= 2
    decreases |m.segments|
  {
    if |m.segments| <= maxSegments then m
    else
      var g := ForceGroup(Sizes(m), maxSegments, maxMerge);
      ForceGroupOk(m, maxSegments, maxMerge);
      MergeCount(m, g);
      ForceLoop(MergeGroup(m, g), maxSegments, maxMerge)
  }

  /** `force_merge_to(n)` started above `n >= 2` ends with `n` segments, or `n - 1` when
      the last merge found nothing live; the map is preserved. */
  lemma {:induction false} ForceLoopOk(m: Mem, maxSegments: nat, maxMerge: nat, r: RefMap)
    requires MemInv(m) && Represents(m, r) && maxSegments >= 2
    ensures var m' := ForceLoop(m, maxSegments, maxMerge);
            && MemInv(m') && Represents(m', r) && m'.buffer == m.buffer
            && |m'.segments| <= maxSegments
            && (|m.segments| > maxSegments ==> |m'.segments| >= maxSegments - 1)
            && (|m.segments| <= maxSegments ==> m' == m)
    decreases |m.segments|
  {
    if |m.segments| > maxSegments {
      var g := ForceGroup(Sizes(m), maxSegments, maxMerge);
      ForceGroupOk(m, maxSegments, maxMerge);
      MergeCount(m, g);
      MergeGroupRefines(m, g, r);
      ForceLoopOk(MergeGroup(m, g), maxSegments, maxMerge, r);
    }
  }

  // ---------------------------------------------------------------------------
  // compact
  // ---------------------------------------------------------------------------

  predicate HasDead(m: Mem) { m.tombstones != {} || m.superseded != map[] }

  /** Whether a full compaction has anything to rewrite. */
  predicate WorthMerging(m: Mem) { |m.segments| > 1 || (|m.segments| == 1 && HasDead(m)) }

  function MergeAll(m: Mem): Mem
    requires |m.segments| == |m.segmentIds|
  {
    if WorthMerging(m) then MergeGroup(m, UpTo(|m.segments|)) else m
  }

  function Purged(m: Mem): Mem { m.(tombstones := {}, superseded := map[]) }

  function Compact(m: Mem): Mem
    requires |m.segments| == |m.segmentIds|
  {
    Purged(MergeAll(Seal(m)))
  }

  /** After merging everything no copy is tombstoned or superseded, so purging both
      tables is safe. */
  lemma MergeAllLive(m: Mem, r: RefMap)
    requires MemInv(m) && Represents(m, r)
    ensures MemInv(MergeAll(m)) && Represents(MergeAll(m), r) && AllLive(MergeAll(m))
    ensures |MergeAll(m).segments| <= 1 && MergeAll(m).buffer == m.buffer
  {
    var all := UpTo(|m.segments|);
    var m' := MergeAll(m);
    if WorthMerging(m) {
      MergeGroupRefines(m, all, r);
      MergeCount(m, all);
      forall k | k in m.superseded ensures k in GroupIds(m, all) {
        var s :| 0 <= s < |m.segmentIds| && m.segmentIds[s] == k;
        assert all[s] == s;
      }
      assert m'.superseded == map[];
    }
    forall k, x | HasCopy(m'.segments, m'.segmentIds, k, x)
      ensures x !in m'.tombstones && x !in Dead(m'.superseded, k)
    {
      assert Owns(m', k, x) <==> x !in Dead(m'.superseded, k);
    }
  }

  /** A second `compact` rewrites nothing. */
  lemma CompactSettles(m: Mem, r: RefMap)
    requires MemInv(m) && Represents(m, r)
    ensures |Compact(m).segments| == |Compact(m).segmentIds| && Compact(Compact(m)) == Compact(m)
  {
    CompactOk(m, r);
  }

  /** `compact` preserves the map and leaves at most one segment and empty tables. */
  lemma CompactOk(m: Mem, r: RefMap)
    requires MemInv(m) && Represents(m, r)
    ensures MemInv(Compact(m)) && Represents(Compact(m), r)
    ensures |Compact(m).segments| <= 1 && Compact(m).buffer == []
    ensures Compact(m).tombstones == {} && Compact(m).superseded == map[]
  {
    SealRefines(m, r);
    MergeAllLive(Seal(m), r);
    Safety.PurgeRefines(MergeAll(Seal(m)), r);
  }
}
