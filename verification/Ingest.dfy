/** Write amplification of size-tiered compaction over whole ingest runs. */
module Ingest {
  import opened Base
  import opened Memory
  import opened Refinement
  import opened Merging
  import opened Tiering
  import opened TierTheorems
  import opened Compaction
  import opened Counting
  import opened Protocol

  /** The store during a run of adds: `ranks[i]` is the largest number of times any item
      of segment `i` was rewritten by a merge, `moved` the number of items all merges
      wrote. */
  datatype Tracked = Tracked(m: Mem, ranks: seq<nat>, moved: nat)

  function MaxAt(ranks: seq<nat>, g: seq<nat>): (r: nat)
    requires Within(g, |ranks|)
    ensures forall i :: 0 <= i < |g| ==> ranks[g[i]] <= r
    ensures g != [] ==> exists i :: 0 <= i < |g| && ranks[g[i]] == r
  {
    if g == [] then 0
    else
      var n := |g| - 1;
      var r := MaxAt(ranks, g[..n]);
      assert forall i :: 0 <= i < n ==> g[..n][i] == g[i];
      Max(r, ranks[g[n]])
  }

  /** The list without the positions of the group. */
  function Outside(f: seq<nat>, g: seq<nat>): (r: seq<nat>)
    ensures Within(Kept(|f|, Indices(g)), |f|) && r == Pick(f, Kept(|f|, Indices(g)))
  {
    KeptWithin(|f|, Indices(g));
    Pick(f, Kept(|f|, Indices(g)))
  }

  /** The list after the group is replaced by its output, which goes to the end. */
  function Regroup(f: seq<nat>, g: seq<nat>, x: nat): (r: seq<nat>)
    ensures r == Outside(f, g) + [x]
  {
    Outside(f, g) + [x]
  }

  ghost predicate Shaped(t: Tracked) {
    |t.m.segments| == |t.m.segmentIds| == |t.ranks|
  }

  /** The tracking after a merge that wrote `merged` and left the store `m'`. */
  function After(t: Tracked, g: seq<nat>, merged: Segment, m': Mem): (t': Tracked)
    requires Within(g, |t.ranks|)
  {
    Tracked(m',
            if merged != [] then Regroup(t.ranks, g, 1 + MaxAt(t.ranks, g)) else Outside(t.ranks, g),
            t.moved + |merged|)
  }

  lemma MergeShape(m: Mem, g: seq<nat>, merged: Segment)
    requires |m.segments| == |m.segmentIds| && Within(g, |m.segments|) && merged == Merged(m, g)
    ensures var m' := MergeGroup(m, g);
            |m'.segments| == |m'.segmentIds|
            && |m'.segments| == |Kept(|m.segments|, Indices(g))| + (if merged != [] then 1 else 0)
  {
  }

  function MergeTracked(t: Tracked, g: seq<nat>): (t': Tracked)
    requires |t.m.segments| == |t.m.segmentIds| == |t.ranks| && Within(g, |t.m.segments|)
    ensures |t'.m.segments| == |t'.m.segmentIds| == |t'.ranks|
  {
    MergeShape(t.m, g, Merged(t.m, g));
    After(t, g, Merged(t.m, g), MergeGroup(t.m, g))
  }

  function TierTracked(t: Tracked, threshold: nat, cfg: TierConfig): (t': Tracked)
    requires |t.m.segments| == |t.m.segmentIds| == |t.ranks|
    ensures |t'.m.segments| == |t'.m.segmentIds| == |t'.ranks|
    decreases |t.m.segments|
  {
    match SelectGroup(Sizes(t.m), threshold, cfg)
    case None => t
    case Some(g) =>
      SelectedIsGroup(t.m, threshold, cfg);
      MergeCount(t.m, g);
      TierTracked(MergeTracked(t, g), threshold, cfg)
  }

  /** One add with auto-compaction on. */
  function AddTracked(t: Tracked, e: Entry, threshold: nat, cfg: TierConfig): (t': Tracked)
    requires |t.m.segments| == |t.m.segmentIds| == |t.ranks|
    ensures |t'.m.segments| == |t'.m.segmentIds| == |t'.ranks|
  {
    ApplyTables(t.m, Add(e.0, e.1));
    var m1 := Apply(t.m, Add(e.0, e.1));
    ApplyPushes(t.m, e);
    if |m1.buffer| >= threshold then TierTracked(Tracked(Seal(m1), t.ranks + [0], t.moved), threshold, cfg)
    else t.(m := m1)
  }

  lemma ApplyPushes(m: Mem, e: Entry)
    ensures Apply(m, Add(e.0, e.1)).buffer != []
  {
  }

  /** A whole run: the entries are added one by one to an empty store. */
  function Ingested(entries: seq<Entry>, threshold: nat, cfg: TierConfig): (t': Tracked)
    ensures |t'.m.segments| == |t'.m.segmentIds| == |t'.ranks|
  {
    if entries == [] then Tracked(EMPTY_MEM, [], 0)
    else
      var n := |entries| - 1;
      AddTracked(Ingested(entries[..n], threshold, cfg), entries[n], threshold, cfg)
  }

  /** The tracking does not change what the compaction does. */
  lemma {:induction false} TrackedIsTierLoop(t: Tracked, threshold: nat, cfg: TierConfig)
    requires |t.m.segments| == |t.m.segmentIds| == |t.ranks|
    ensures var t' := TierTracked(t, threshold, cfg);
            t'.m == TierLoop(t.m, threshold, cfg).0 && t'.moved == t.moved + TierLoop(t.m, threshold, cfg).1
    decreases |t.m.segments|
  {
    match SelectGroup(Sizes(t.m), threshold, cfg) {
      case None =>
      case Some(g) =>
        SelectedIsGroup(t.m, threshold, cfg);
        MergeCount(t.m, g);
        TrackedIsTierLoop(MergeTracked(t, g), threshold, cfg);
    }
  }

  /** Each tracked add is the add that the store performs. */
  lemma TrackedIsAdd(t: Tracked, e: Entry, threshold: nat, cfg: TierConfig)
    requires |t.m.segments| == |t.m.segmentIds| == |t.ranks|
    ensures AddTracked(t, e, threshold, cfg).m == AddAuto(t.m, Add(e.0, e.1), threshold, cfg)
  {
    ApplyTables(t.m, Add(e.0, e.1));
    ApplyPushes(t.m, e);
    var m1 := Apply(t.m, Add(e.0, e.1));
    if |m1.buffer| >= threshold {
      TrackedIsTierLoop(Tracked(Seal(m1), t.ranks + [0], t.moved), threshold, cfg);
    }
  }

  // ---------------------------------------------------------------------------
  // Sums over positions
  // ---------------------------------------------------------------------------

  function SumAll(f: seq<nat>): nat {
    if f == [] then 0 else SumAll(f[..|f| - 1]) + f[|f| - 1]
  }

  /** The sum over the positions below `n` that are not dropped. */
  function SumOutside(f: seq<nat>, n: nat, drop: set<nat>): nat
    requires n <= |f|
  {
    if n == 0 then 0 else SumOutside(f, n - 1, drop) + (if n - 1 in drop then 0 else f[n - 1])
  }

  lemma {:induction false} DropOneMore(f: seq<nat>, n: nat, drop: set<nat>, x: nat)
    requires n <= |f| && x !in drop
    ensures SumOutside(f, n, drop) == SumOutside(f, n, drop + {x}) + (if x < n then f[x] else 0)
  {
    if n > 0 { DropOneMore(f, n - 1, drop, x); }
  }

  lemma {:induction false} SumSplit(f: seq<nat>, g: seq<nat>)
    requires Within(g, |f|) && forall i, j :: 0 <= i < j < |g| ==> g[i] != g[j]
    ensures SumOutside(f, |f|, Indices(g)) + SumAt(f, g) == SumOutside(f, |f|, {})
  {
    if g == [] {
      assert Indices(g) == {};
    } else {
      var n := |g| - 1;
      var init := g[..n];
      SumSplit(f, init);
      assert g == init + [g[n]];
      assert Indices(g) == Indices(init) + {g[n]};
      DropOneMore(f, |f|, Indices(init), g[n]);
    }
  }

  lemma KeptWithin(n: nat, drop: set<nat>)
    ensures Within(Kept(n, drop), n)
  {
    forall i | 0 <= i < |Kept(n, drop)| ensures Kept(n, drop)[i] < n {
      assert Kept(n, drop)[i] in Kept(n, drop);
    }
  }

  lemma PickNext(f: seq<nat>, at: seq<nat>, i: nat, dropped: bool, at': seq<nat>)
    requires Within(at, |f|) && i < |f| && at' == if dropped then at else at + [i]
    ensures Within(at', |f|)
    ensures SumAll(Pick(f, at')) == SumAll(Pick(f, at)) + if dropped then 0 else f[i]
  {
    if !dropped {
      assert Pick(f, at') == Pick(f, at) + [f[i]];
      SumAllAppend(Pick(f, at), f[i]);
    }
  }

  lemma {:induction false} SumOfKept(f: seq<nat>, n: nat, drop: set<nat>)
    requires n <= |f|
    ensures Within(Kept(n, drop), n) && SumAll(Pick(f, Kept(n, drop))) == SumOutside(f, n, drop)
  {
    KeptWithin(n, drop);
    if n > 0 {
      SumOfKept(f, n - 1, drop);
      PickNext(f, Kept(n - 1, drop), n - 1, n - 1 in drop, Kept(n, drop));
    }
  }

  lemma {:induction false} SumOfAll(f: seq<nat>, n: nat)
    requires n <= |f|
    ensures SumOutside(f, n, {}) == SumAll(f[..n])
  {
    if n > 0 {
      SumOfAll(f, n - 1);
      assert f[..n][..n - 1] == f[..n - 1];
    }
  }

  /** The total splits into what stays after the group is dropped and the group. */
  lemma SumSplitPick(f: seq<nat>, g: seq<nat>, kept: seq<nat>)
    requires Within(g, |f|) && forall i, j :: 0 <= i < j < |g| ==> g[i] != g[j]
    requires kept == Kept(|f|, Indices(g)) && Within(kept, |f|)
    ensures SumAll(Pick(f, kept)) + SumAt(f, g) == SumAll(f)
  {
    SumSplit(f, g);
    SumOfKept(f, |f|, Indices(g));
    SumOfAll(f, |f|);
    assert f[..|f|] == f;
  }

  lemma SumAllAppend(f: seq<nat>, x: nat)
    ensures SumAll(f + [x]) == SumAll(f) + x
  {
    assert (f + [x])[..|f|] == f;
  }

  // ---------------------------------------------------------------------------
  // The invariant of a run
  // ---------------------------------------------------------------------------

  function Pow(g: real, c: nat): real { if c == 0 then 1.0 else Pow(g, c - 1) * g }

  /** The least growth factor of a tier merge. */
  function Factor(cfg: TierConfig): real
    requires cfg.bucketHigh > 0.0
  {
    Growth(MinMerge(cfg), cfg.bucketHigh)
  }

  /** A segment whose items were rewritten `c` times has at least `floor * g^c` items. */
  ghost predicate Grown(size: nat, c: nat, floor: nat, g: real) {
    size as real >= floor as real * Pow(g, c)
  }

  /** The item moves accounted to the segments present. */
  function Work(sizes: seq<nat>, ranks: seq<nat>): (w: seq<nat>)
    requires |sizes| == |ranks|
    ensures |w| == |sizes| && forall i :: 0 <= i < |w| ==> w[i] == Mul(sizes[i], ranks[i])
  {
    seq(|sizes|, i requires 0 <= i < |sizes| => Mul(sizes[i], ranks[i]))
  }

  /** Multiplication by repeated addition, so that sums of products stay linear. */
  function Mul(a: nat, b: nat): nat { if b == 0 then 0 else Mul(a, b - 1) + a }

  lemma {:induction false} MulIsProduct(a: nat, b: nat)
    ensures Mul(a, b) == a * b
  {
    if b > 0 { MulIsProduct(a, b - 1); }
  }

  lemma {:induction false} MulSum(a: nat, b: nat, c: nat)
    ensures Mul(a + b, c) == Mul(a, c) + Mul(b, c)
  {
    if c > 0 { MulSum(a, b, c - 1); }
  }

  lemma {:induction false} MulScale(x: nat, a: nat, b: nat)
    requires a <= b
    ensures Mul(x, a) <= Mul(x, b)
  {
    if a < b { MulScale(x, a, b - 1); }
  }

  lemma {:induction false} MulGrow(x: nat, y: nat, c: nat)
    requires x <= y
    ensures Mul(x, c) <= Mul(y, c)
  {
    if c > 0 { MulGrow(x, y, c - 1); }
  }

  ghost predicate SizeOk(size: nat, rank: nat, threshold: nat, cfg: TierConfig)
    requires cfg.bucketHigh > 0.0
  {
    && size >= Floor(threshold)
    && Grown(size, rank, Floor(threshold), Factor(cfg))
    && (rank > 0 ==> size <= cfg.maxMergedLen)
  }

  /** What every state of the tier loop keeps, in terms of sizes and ranks. */
  ghost predicate Balanced(sizes: seq<nat>, ranks: seq<nat>, moved: nat, threshold: nat, cfg: TierConfig)
    requires cfg.bucketHigh > 0.0
  {
    && |sizes| == |ranks|
    && (forall i :: 0 <= i < |sizes| ==> SizeOk(sizes[i], ranks[i], threshold, cfg))
    && moved <= SumAll(Work(sizes, ranks))
  }

  lemma {:induction false} PowMonotone(g: real, a: nat, b: nat)
    requires g >= 1.0 && a <= b
    ensures 1.0 <= Pow(g, a) <= Pow(g, b)
    decreases b
  {
    if b > 0 {
      if a < b {
        PowMonotone(g, a, b - 1);
        ScaleLe(1.0, g, Pow(g, b - 1));
      } else {
        PowMonotone(g, a - 1, b - 1);
        ScaleLe(1.0, g, Pow(g, b - 1));
      }
    }
  }

  lemma {:induction false} GroupWork(sizes: seq<nat>, ranks: seq<nat>, g: seq<nat>, top: nat)
    requires |sizes| == |ranks| && Within(g, |sizes|)
    requires forall i :: 0 <= i < |g| ==> ranks[g[i]] <= top
    ensures SumAt(Work(sizes, ranks), g) <= Mul(SumAt(sizes, g), top)
  {
    if g != [] {
      var n := |g| - 1;
      assert forall i :: 0 <= i < n ==> g[..n][i] == g[i];
      GroupWork(sizes, ranks, g[..n], top);
      MulScale(sizes[g[n]], ranks[g[n]], top);
      MulSum(SumAt(sizes, g[..n]), sizes[g[n]], top);
    } else {
      MulIsProduct(0, top);
    }
  }

  lemma {:induction false} FlooredSumIsSumAt(sizes: seq<nat>, threshold: nat, g: seq<nat>)
    requires Within(g, |sizes|)
    requires forall i :: 0 <= i < |g| ==> sizes[g[i]] >= Floor(threshold)
    ensures FlooredSum(sizes, threshold, g) == SumAt(sizes, g) as real
  {
    if g != [] {
      var n := |g| - 1;
      assert forall i :: 0 <= i < n ==> g[..n][i] == g[i];
      FlooredSumIsSumAt(sizes, threshold, g[..n]);
    }
  }

  lemma GrowthMonotone(a: nat, b: nat, high: real)
    requires high > 0.0 && 0 < a <= b
    ensures 1.0 <= Growth(a, high) <= Growth(b, high)
  {
    DivideLe(0.0, (a - 1) as real, high);
    DivideLe((a - 1) as real, (b - 1) as real, high);
  }

  lemma DivideLe(x: real, y: real, h: real)
    requires h > 0.0 && x <= y
    ensures x / h <= y / h
  {
    assert x / h * h == x && y / h * h == y;
    CancelFactor(x / h, y / h, h);
  }

  /** The most rewritten input of a selected group, and what the output outgrows. */
  lemma OutgrowsTop(sizes: seq<nat>, ranks: seq<nat>, threshold: nat, cfg: TierConfig) returns (i: nat)
    requires |sizes| == |ranks| && forall j :: 0 <= j < |sizes| ==> sizes[j] >= Floor(threshold)
    requires SelectGroup(sizes, threshold, cfg).Some?
    ensures var g := SelectGroup(sizes, threshold, cfg).value;
            && Within(g, |sizes|) && i < |sizes| && ranks[i] == MaxAt(ranks, g)
            && MinMerge(cfg) <= |g|
            && SumAt(sizes, g) <= cfg.maxMergedLen
            && Outgrows(SumAt(sizes, g) as real, |g|, cfg.bucketHigh, sizes[i] as real)
  {
    var g := SelectGroup(sizes, threshold, cfg).value;
    GroupBounds(sizes, threshold, cfg);
    GeometricGrowth(sizes, threshold, cfg);
    FlooredSumIsSumAt(sizes, threshold, g);
    var k :| 0 <= k < |g| && ranks[g[k]] == MaxAt(ranks, g);
    i := g[k];
    assert FlooredSize(sizes[i], threshold) == sizes[i] as real;
  }

  /** The output of a tier merge has grown by the factor over its most rewritten input,
      within the cap: a segment that every invariant of a run allows. */
  lemma OutputGrown(sizes: seq<nat>, ranks: seq<nat>, moved: nat, g: seq<nat>, l: nat, c: nat,
                    threshold: nat, cfg: TierConfig)
    requires cfg.bucketHigh > 0.0 && Balanced(sizes, ranks, moved, threshold, cfg)
    requires SelectGroup(sizes, threshold, cfg) == Some(g) && Within(g, |sizes|)
    requires l == SumAt(sizes, g) && c == 1 + MaxAt(ranks, g)
    ensures forall i, j :: 0 <= i < j < |g| ==> g[i] != g[j]
    ensures SizeOk(l, c, threshold, cfg)
  {
    GroupBounds(sizes, threshold, cfg);
    var i := OutgrowsTop(sizes, ranks, threshold, cfg);
    OutputOk(l, c, sizes[i], ranks[i], |g|, threshold, cfg);
  }

  lemma OutputOk(total: nat, next: nat, x: nat, c: nat, k: nat, threshold: nat, cfg: TierConfig)
    requires cfg.bucketHigh > 0.0 && k >= MinMerge(cfg) && total <= cfg.maxMergedLen && next == 1 + c
    requires Outgrows(total as real, k, cfg.bucketHigh, x as real) && SizeOk(x, c, threshold, cfg)
    ensures SizeOk(total, next, threshold, cfg)
  {
    NextGrown(total, x, c, Floor(threshold), k, cfg);
  }

  lemma NextGrown(total: nat, x: nat, c: nat, floor: nat, k: nat, cfg: TierConfig)
    requires cfg.bucketHigh > 0.0 && k >= MinMerge(cfg) && x >= floor
    requires Outgrows(total as real, k, cfg.bucketHigh, x as real)
    requires Grown(x, c, floor, Factor(cfg))
    ensures Grown(total, 1 + c, floor, Factor(cfg)) && total >= floor
  {
    var q, p := Factor(cfg), Pow(Factor(cfg), c);
    GrowthMonotone(MinMerge(cfg), k, cfg.bucketHigh);
    GrownArith(total as real, x as real, floor as real, q, Growth(k, cfg.bucketHigh), p);
    assert Pow(q, 1 + c) == p * q;
  }

  lemma GrownArith(total: real, x: real, f: real, q: real, q': real, p: real)
    requires total > q' * x && 1.0 <= q <= q' && x >= f * p && x >= f >= 0.0
    ensures total >= f * (p * q) && total >= f
  {
    ScaleLe(q, q', x);
    ScaleLe(f * p, x, q);
    ScaleLe(1.0, q, x);
    assert q * (f * p) == f * (p * q);
    assert x * q == q * x && x * q' == q' * x;
  }

  lemma WorkOfRegroup(sizes: seq<nat>, ranks: seq<nat>, g: seq<nat>, l: nat, c: nat)
    requires |sizes| == |ranks|
    ensures Work(Regroup(sizes, g, l), Regroup(ranks, g, c))
         == Outside(Work(sizes, ranks), g) + [Mul(l, c)]
  {
    KeptWithin(|sizes|, Indices(g));
  }

  /** The item moves of a merge are paid for by the higher rank of its output. */
  lemma RegroupWork(sizes: seq<nat>, ranks: seq<nat>, g: seq<nat>)
    requires |sizes| == |ranks| && Within(g, |sizes|)
    requires forall i, j :: 0 <= i < j < |g| ==> g[i] != g[j]
    ensures var l := SumAt(sizes, g);
            var sizes', ranks' := Regroup(sizes, g, l), Regroup(ranks, g, 1 + MaxAt(ranks, g));
            SumAll(Work(sizes', ranks')) >= SumAll(Work(sizes, ranks)) + l
  {
    var l, top := SumAt(sizes, g), MaxAt(ranks, g);
    WorkOfRegroup(sizes, ranks, g, l, 1 + top);
    GroupWork(sizes, ranks, g, top);
    PaidWork(Work(sizes, ranks), g, l, top);
  }

  lemma PaidWork(w: seq<nat>, g: seq<nat>, l: nat, top: nat)
    requires Within(g, |w|) && forall i, j :: 0 <= i < j < |g| ==> g[i] != g[j]
    requires SumAt(w, g) <= Mul(l, top)
    ensures SumAll(Outside(w, g) + [Mul(l, 1 + top)]) >= SumAll(w) + l
  {
    SumAllAppend(Outside(w, g), Mul(l, 1 + top));
    SumSplitPick(w, g, Kept(|w|, Indices(g)));
  }

  lemma RegroupKeeps(sizes: seq<nat>, ranks: seq<nat>, moved: nat, g: seq<nat>, l: nat, c: nat,
                     threshold: nat, cfg: TierConfig)
    requires cfg.bucketHigh > 0.0 && Balanced(sizes, ranks, moved, threshold, cfg)
    requires Within(g, |sizes|) && forall i, j :: 0 <= i < j < |g| ==> g[i] != g[j]
    requires l == SumAt(sizes, g) && c == 1 + MaxAt(ranks, g) && SizeOk(l, c, threshold, cfg)
    ensures Balanced(Regroup(sizes, g, l), Regroup(ranks, g, c), moved + l, threshold, cfg)
  {
    RegroupWork(sizes, ranks, g);
    RegroupSizesOk(sizes, ranks, g, l, c, threshold, cfg);
  }

  lemma OutsideTotal(f: seq<nat>, g: seq<nat>, x: nat)
    requires Within(g, |f|) && (forall i, j :: 0 <= i < j < |g| ==> g[i] != g[j]) && x == SumAt(f, g)
    ensures SumAll(Outside(f, g) + [x]) == SumAll(f)
  {
    SumAllAppend(Outside(f, g), x);
    SumSplitPick(f, g, Kept(|f|, Indices(g)));
  }

  /** Merging moves items between segments and loses none. */
  lemma RegroupTotal(sizes: seq<nat>, g: seq<nat>, l: nat)
    requires Within(g, |sizes|) && (forall i, j :: 0 <= i < j < |g| ==> g[i] != g[j]) && l == SumAt(sizes, g)
    ensures SumAll(Regroup(sizes, g, l)) == SumAll(sizes)
  {
    OutsideTotal(sizes, g, l);
    assert Regroup(sizes, g, l) == Outside(sizes, g) + [l];
  }

  /** A tier merge keeps sizes, ranks and moved items balanced, and loses no item. */
  lemma RegroupBalanced(sizes: seq<nat>, ranks: seq<nat>, moved: nat, g: seq<nat>, l: nat, c: nat,
                        threshold: nat, cfg: TierConfig)
    requires cfg.bucketHigh > 0.0 && Balanced(sizes, ranks, moved, threshold, cfg)
    requires SelectGroup(sizes, threshold, cfg) == Some(g) && Within(g, |sizes|)
    requires l == SumAt(sizes, g) && c == 1 + MaxAt(ranks, g)
    ensures Balanced(Regroup(sizes, g, l), Regroup(ranks, g, c), moved + l, threshold, cfg)
    ensures SumAll(Regroup(sizes, g, l)) == SumAll(sizes)
  {
    OutputGrown(sizes, ranks, moved, g, l, c, threshold, cfg);
    RegroupKeeps(sizes, ranks, moved, g, l, c, threshold, cfg);
    RegroupTotal(sizes, g, l);
  }

  lemma RegroupSizesOk(sizes: seq<nat>, ranks: seq<nat>, g: seq<nat>, x: nat, c: nat, threshold: nat, cfg: TierConfig)
    requires cfg.bucketHigh > 0.0 && |sizes| == |ranks|
    requires forall i :: 0 <= i < |sizes| ==> SizeOk(sizes[i], ranks[i], threshold, cfg)
    requires SizeOk(x, c, threshold, cfg)
    ensures var sizes', ranks' := Regroup(sizes, g, x), Regroup(ranks, g, c);
            && |sizes'| == |ranks'|
            && forall i :: 0 <= i < |sizes'| ==> SizeOk(sizes'[i], ranks'[i], threshold, cfg)
  {
  }

  lemma SealBalanced(sizes: seq<nat>, ranks: seq<nat>, moved: nat, size: nat, threshold: nat, cfg: TierConfig)
    requires cfg.bucketHigh > 0.0 && Balanced(sizes, ranks, moved, threshold, cfg) && size >= Floor(threshold)
    ensures Balanced(sizes + [size], ranks + [0], moved, threshold, cfg)
  {
    assert Work(sizes + [size], ranks + [0]) == Work(sizes, ranks) + [0];
    SumAllAppend(Work(sizes, ranks), 0);
  }

  // ---------------------------------------------------------------------------
  // Runs of adds with distinct ids
  // ---------------------------------------------------------------------------

  /** No id was added twice or deleted, so nothing is dead; every add is accounted for. */
  ghost predicate Running(t: Tracked, entries: seq<Entry>, threshold: nat, cfg: TierConfig) {
    && cfg.bucketHigh > 0.0
    && MemInv(t.m) && t.m.tombstones == {} && t.m.superseded == map[]
    && t.m.owners.Keys + t.m.bufferIds == IdsOf(entries)
    && Balanced(Sizes(t.m), t.ranks, t.moved, threshold, cfg)
    && SumAll(Sizes(t.m)) + |t.m.buffer| == |entries|
  }

  lemma {:induction false} ConcatLength(m: Mem, g: seq<nat>, parts: seq<Segment>)
    requires |parts| == |g| && Within(g, |m.segments|)
    requires forall i :: 0 <= i < |g| ==> parts[i] == m.segments[g[i]]
    ensures |Concat(parts)| == SumAt(Sizes(m), g)
  {
    if g != [] {
      var n := |g| - 1;
      ConcatLength(m, g[..n], parts[..n]);
    }
  }

  /** With nothing dead, a merge writes every item of its inputs. */
  lemma WholeMerge(m: Mem, g: seq<nat>)
    requires MemInv(m) && m.tombstones == {} && m.superseded == map[] && Group(m, g)
    ensures |Merged(m, g)| == SumAt(Sizes(m), g)
  {
    MergedIsLive(m, g);
    forall i | 0 <= i < |g| ensures LiveParts(m, g)[i] == m.segments[g[i]] {
      assert AllLive(m);
      AllLiveIsWhole(m, g[i]);
    }
    ConcatLength(m, g, LiveParts(m, g));
  }

  lemma ReplaceSizes(m: Mem, g: seq<nat>, out: Segment, id: nat)
    requires |m.segments| == |m.segmentIds| && Within(g, |m.segments|) && out != []
    ensures Sizes(Replace(m, g, out, id)) == Regroup(Sizes(m), g, |out|)
  {
    KeptWithin(|m.segments|, Indices(g));
  }

  lemma RegroupSizes(m: Mem, g: seq<nat>)
    requires MemInv(m) && m.tombstones == {} && m.superseded == map[] && Group(m, g) && Merged(m, g) != []
    ensures Sizes(MergeGroup(m, g)) == Regroup(Sizes(m), g, SumAt(Sizes(m), g))
  {
    WholeMerge(m, g);
    ReplaceSizes(Alloc(m), g, Merged(m, g), m.nextSegId);
  }

  lemma MergeOwners(m: Mem, g: seq<nat>)
    requires MemInv(m) && Group(m, g)
    ensures MergeGroup(m, g).owners.Keys == m.owners.Keys
  {
    MergedIsOutput(m, g);
    if Merged(m, g) == [] { ReplaceOwners(m, g, [], 0); }
  }

  /** A merge of whole segments keeps the run going: sizes, ranks and moves stay balanced. */
  lemma RunningAfter(t: Tracked, g: seq<nat>, l: nat, t': Tracked, entries: seq<Entry>, threshold: nat, cfg: TierConfig)
    requires Shaped(t) && Running(t, entries, threshold, cfg)
    requires SelectGroup(Sizes(t.m), threshold, cfg) == Some(g) && Group(t.m, g) && l == SumAt(Sizes(t.m), g)
    requires MemInv(t'.m) && t'.m.tombstones == {} && t'.m.superseded == map[]
    requires t'.m.owners.Keys == t.m.owners.Keys && t'.m.buffer == t.m.buffer && t'.m.bufferIds == t.m.bufferIds
    requires Sizes(t'.m) == Regroup(Sizes(t.m), g, l)
    requires t'.ranks == Regroup(t.ranks, g, 1 + MaxAt(t.ranks, g)) && t'.moved == t.moved + l
    ensures Running(t', entries, threshold, cfg)
  {
    var sizes, c := Sizes(t.m), 1 + MaxAt(t.ranks, g);
    RegroupBalanced(sizes, t.ranks, t.moved, g, l, c, threshold, cfg);
    SameRun(t, t', Regroup(sizes, g, l), Regroup(t.ranks, g, c), t.moved + l, entries, threshold, cfg);
  }

  lemma AfterParts(t: Tracked, g: seq<nat>, merged: Segment, m': Mem)
    requires Within(g, |t.ranks|) && |merged| > 0
    ensures var t' := After(t, g, merged, m');
            t'.ranks == Regroup(t.ranks, g, 1 + MaxAt(t.ranks, g)) && t'.moved == t.moved + |merged|
  {
    assert merged != [];
  }

  /** What a run says beyond the balance of sizes and ranks. */
  lemma SameRun(t: Tracked, t': Tracked, sizes: seq<nat>, ranks: seq<nat>, moved: nat,
                entries: seq<Entry>, threshold: nat, cfg: TierConfig)
    requires Running(t, entries, threshold, cfg)
    requires MemInv(t'.m) && t'.m.tombstones == {} && t'.m.superseded == map[]
    requires t'.m.owners.Keys == t.m.owners.Keys && t'.m.buffer == t.m.buffer && t'.m.bufferIds == t.m.bufferIds
    requires Sizes(t'.m) == sizes && t'.ranks == ranks && t'.moved == moved
    requires Balanced(sizes, ranks, moved, threshold, cfg) && SumAll(sizes) == SumAll(Sizes(t.m))
    ensures Running(t', entries, threshold, cfg)
  {
  }

  lemma MergeRunning(t: Tracked, entries: seq<Entry>, threshold: nat, cfg: TierConfig)
    requires Shaped(t) && Running(t, entries, threshold, cfg)
    requires SelectGroup(Sizes(t.m), threshold, cfg).Some?
    ensures Group(t.m, SelectGroup(Sizes(t.m), threshold, cfg).value)
    ensures Running(MergeTracked(t, SelectGroup(Sizes(t.m), threshold, cfg).value), entries, threshold, cfg)
  {
    var g := SelectGroup(Sizes(t.m), threshold, cfg).value;
    SelectedIsGroup(t.m, threshold, cfg);
    WholeMerge(t.m, g);
    MergeInv(t.m, g);
    MergeOwners(t.m, g);
    RegroupSizes(t.m, g);
    MergeTables(t.m, g);
    AfterParts(t, g, Merged(t.m, g), MergeGroup(t.m, g));
    RunningAfter(t, g, |Merged(t.m, g)|, MergeTracked(t, g), entries, threshold, cfg);
  }

  lemma ReplaceTables(m: Mem, g: seq<nat>, merged: Segment, id: nat)
    requires |m.segments| == |m.segmentIds|
    ensures var m' := Replace(m, g, merged, id);
            && m'.tombstones == m.tombstones && m'.superseded == m.superseded - GroupIds(m, g)
            && m'.buffer == m.buffer && m'.bufferIds == m.bufferIds
  {
  }

  lemma MergeTables(m: Mem, g: seq<nat>)
    requires |m.segments| == |m.segmentIds| && Within(g, |m.segments|)
    ensures var m' := MergeGroup(m, g);
            && m'.tombstones == m.tombstones && m'.superseded == m.superseded - GroupIds(m, g)
            && m'.buffer == m.buffer && m'.bufferIds == m.bufferIds
  {
    var merged := Merged(m, g);
    if merged == [] {
      ReplaceTables(m, g, [], 0);
    } else {
      ReplaceTables(Alloc(m), g, merged, m.nextSegId);
      assert GroupIds(Alloc(m), g) == GroupIds(m, g);
    }
  }

  /** The invariant alone, for states whose map is not at hand. */
  lemma MergeInv(m: Mem, g: seq<nat>)
    requires MemInv(m) && Group(m, g)
    ensures MemInv(MergeGroup(m, g))
  {
    MergedIsOutput(m, g);
    if Merged(m, g) == [] {
      ReplaceInv(m, g, [], 0);
    } else {
      MergedAlloc(m, g);
      TrackingByTables(m, Alloc(m));
      MergedIsOutput(Alloc(m), g);
      ReplaceInv(Alloc(m), g, Merged(m, g), m.nextSegId);
    }
  }

  lemma {:induction false} TierRunning(t: Tracked, entries: seq<Entry>, threshold: nat, cfg: TierConfig)
    requires Shaped(t) && Running(t, entries, threshold, cfg)
    ensures Running(TierTracked(t, threshold, cfg), entries, threshold, cfg)
    decreases |t.m.segments|
  {
    match SelectGroup(Sizes(t.m), threshold, cfg) {
      case None =>
      case Some(g) =>
        MergeRunning(t, entries, threshold, cfg);
        SelectedIsGroup(t.m, threshold, cfg);
        MergeCount(t.m, g);
        TierRunning(MergeTracked(t, g), entries, threshold, cfg);
    }
  }

  lemma ApplyRunning(t: Tracked, entries: seq<Entry>, e: Entry, threshold: nat, cfg: TierConfig)
    requires Shaped(t) && Running(t, entries, threshold, cfg) && e.0 !in IdsOf(entries)
    ensures Running(t.(m := Apply(t.m, Add(e.0, e.1))), entries + [e], threshold, cfg)
  {
    var op := Add(e.0, e.1);
    var m1 := Apply(t.m, op);
    ApplyKeepsInv(t.m, op);
    ApplyBuffer(t.m, op);
    ApplyTables(t.m, op);
    assert IdsOf(entries + [e]) == IdsOf(entries) + {e.0};
    assert m1.buffer == t.m.buffer + [e];
    assert Sizes(m1) == Sizes(t.m);
  }

  lemma SealRunning(t: Tracked, entries: seq<Entry>, threshold: nat, cfg: TierConfig)
    requires Shaped(t) && Running(t, entries, threshold, cfg) && |t.m.buffer| >= Floor(threshold)
    ensures Running(Tracked(Seal(t.m), t.ranks + [0], t.moved), entries, threshold, cfg)
  {
    SealInv(t.m);
    SealBalanced(Sizes(t.m), t.ranks, t.moved, |t.m.buffer|, threshold, cfg);
    assert Sizes(Seal(t.m)) == Sizes(t.m) + [|t.m.buffer|];
    SumAllAppend(Sizes(t.m), |t.m.buffer|);
  }

  lemma {:induction false} IngestRunning(entries: seq<Entry>, threshold: nat, cfg: TierConfig)
    requires cfg.bucketHigh > 0.0 && DistinctIds(entries)
    ensures Running(Ingested(entries, threshold, cfg), entries, threshold, cfg)
  {
    if entries == [] {
      assert IdsOf(entries) == {};
      assert Sizes(EMPTY_MEM) == [];
    } else {
      var n := |entries| - 1;
      var t, e := Ingested(entries[..n], threshold, cfg), entries[n];
      IngestRunning(entries[..n], threshold, cfg);
      assert entries == entries[..n] + [e];
      ApplyRunning(t, entries[..n], e, threshold, cfg);
      var t1 := t.(m := Apply(t.m, Add(e.0, e.1)));
      ApplyPushes(t.m, e);
      if |t1.m.buffer| >= threshold {
        SealRunning(t1, entries, threshold, cfg);
        TierRunning(Tracked(Seal(t1.m), t1.ranks + [0], t1.moved), entries, threshold, cfg);
      }
    }
  }

  // ---------------------------------------------------------------------------
  // The bound
  // ---------------------------------------------------------------------------

  lemma RankBound(size: nat, rank: nat, c: nat, threshold: nat, cfg: TierConfig)
    requires cfg.bucketHigh > 0.0
    requires Grown(size, rank, Floor(threshold), Factor(cfg)) && (rank > 0 ==> size <= cfg.maxMergedLen)
    requires Floor(threshold) as real * Pow(Factor(cfg), c + 1) > cfg.maxMergedLen as real
    ensures rank <= c
  {
    if rank > c {
      GrowthMonotone(MinMerge(cfg), MinMerge(cfg), cfg.bucketHigh);
      PowMonotone(Factor(cfg), c + 1, rank);
      ScaleLe(Pow(Factor(cfg), c + 1), Pow(Factor(cfg), rank), Floor(threshold) as real);
      assert false;
    }
  }

  lemma {:induction false} WorkBound(sizes: seq<nat>, ranks: seq<nat>, c: nat)
    requires |sizes| == |ranks| && forall i :: 0 <= i < |ranks| ==> ranks[i] <= c
    ensures SumAll(Work(sizes, ranks)) <= Mul(SumAll(sizes), c)
  {
    if sizes != [] {
      var n := |sizes| - 1;
      WorkBound(sizes[..n], ranks[..n], c);
      assert Work(sizes, ranks)[..n] == Work(sizes[..n], ranks[..n]);
      MulScale(sizes[n], ranks[n], c);
      MulSum(SumAll(sizes[..n]), sizes[n], c);
    }
  }

  /** Adding distinct ids with auto-compaction, all merges together write at most `c`
      items per item added, for every `c` with `floor * g^(c+1)` above the merge cap,
      where `g = 1 + (min_merge - 1) / bucket_high`. Nothing is ever lost, and an item
      rewritten `k` times sits in a segment of at least `floor * g^k` items. */
  lemma WriteAmplification(entries: seq<Entry>, threshold: nat, cfg: TierConfig, c: nat)
    requires cfg.bucketHigh > 0.0 && DistinctIds(entries)
    requires Floor(threshold) as real * Pow(Factor(cfg), c + 1) > cfg.maxMergedLen as real
    ensures var t := Ingested(entries, threshold, cfg);
            && t.moved <= |entries| * c
            && SumAll(Sizes(t.m)) + |t.m.buffer| == |entries|
            && (forall i :: 0 <= i < |t.ranks| ==>
                  Grown(|t.m.segments[i]|, t.ranks[i], Floor(threshold), Factor(cfg)) && t.ranks[i] <= c)
  {
    var t := Ingested(entries, threshold, cfg);
    IngestRunning(entries, threshold, cfg);
    BalancedBound(Sizes(t.m), t.ranks, t.moved, c, threshold, cfg);
    MulGrow(SumAll(Sizes(t.m)), |entries|, c);
    MulIsProduct(|entries|, c);
  }

  /** Powers of a factor above one grow at least linearly. */
  lemma {:induction false} PowLinear(g: real, c: nat)
    requires g >= 1.0
    ensures Pow(g, c) >= 1.0 + c as real * (g - 1.0)
  {
    if c > 0 {
      var p, d := Pow(g, c - 1), g - 1.0;
      PowLinear(g, c - 1);
      PowMonotone(g, 0, c - 1);
      ScaleLe(1.0, p, d);
      assert p * g == p + d * p;
      assert c as real * d == (c - 1) as real * d + d;
    }
  }

  lemma Archimedean(cap: real, d: real) returns (c: nat)
    requires cap >= 0.0 && d > 0.0
    ensures c as real * d > cap
  {
    var q := cap / d;
    assert q >= 0.0 && q * d == cap;
    c := q.Floor + 1;
    assert c as real > q;
    ScaleLt(q, c as real, d);
  }

  lemma ScaleLt(a: real, b: real, h: real)
    requires h > 0.0 && a < b
    ensures a * h < b * h
  {
  }

  /** The factor is above one, so the bound of `WriteAmplification` always has a `c`. */
  lemma BoundExists(threshold: nat, cfg: TierConfig) returns (c: nat)
    requires cfg.bucketHigh > 0.0
    ensures Floor(threshold) as real * Pow(Factor(cfg), c + 1) > cfg.maxMergedLen as real
  {
    var g := Factor(cfg);
    var d := (MinMerge(cfg) - 1) as real / cfg.bucketHigh;
    assert d * cfg.bucketHigh == (MinMerge(cfg) - 1) as real;
    assert g == 1.0 + d && d > 0.0;
    c := Archimedean(cfg.maxMergedLen as real, d);
    PowLinear(g, c + 1);
    assert (c + 1) as real * d == c as real * d + d;
    ScaleLe(1.0, Floor(threshold) as real, Pow(g, c + 1));
  }

  lemma BalancedBound(sizes: seq<nat>, ranks: seq<nat>, moved: nat, c: nat, threshold: nat, cfg: TierConfig)
    requires cfg.bucketHigh > 0.0 && Balanced(sizes, ranks, moved, threshold, cfg)
    requires Floor(threshold) as real * Pow(Factor(cfg), c + 1) > cfg.maxMergedLen as real
    ensures forall i :: 0 <= i < |ranks| ==> ranks[i] <= c
    ensures moved <= Mul(SumAll(sizes), c)
  {
    forall i | 0 <= i < |ranks| ensures ranks[i] <= c {
      RankBound(sizes[i], ranks[i], c, threshold, cfg);
    }
    WorkBound(sizes, ranks, c);
  }
}
