/** Size-tiered merge selection: greedy first-fit bucketing by running averages, a
    freeze cap and a merge cap. Sizes that the source holds as floats are reals here. */
module Tiering {
  import opened Base
  import opened Sorting

  datatype TierConfig = TierConfig(
    minMerge: nat,
    maxMerge: nat,
    bucketLow: real,
    bucketHigh: real,
    maxMergedLen: nat)

  /** A segment that is not frozen: its item count, the count raised to the floor, and
      its position in the segment list. */
  datatype Cand = Cand(raw: nat, size: real, idx: nat)

  datatype Bucket = Bucket(avg: real, members: seq<Cand>)

  function MinMerge(cfg: TierConfig): nat { Max(cfg.minMerge, 2) }

  function Floor(threshold: nat): nat { Max(threshold, 1) }

  function CandAt(sizes: seq<nat>, threshold: nat, i: nat): Cand
    requires i < |sizes|
  {
    Cand(sizes[i], Max(sizes[i], Floor(threshold)) as real, i)
  }

  predicate Frozen(size: nat, cfg: TierConfig) { size > cfg.maxMergedLen / 2 }

  /** The first `n` segments, without the frozen ones. */
  function Eligible(sizes: seq<nat>, threshold: nat, cfg: TierConfig, n: nat): seq<Cand>
    requires n <= |sizes|
  {
    if n == 0 then []
    else
      var r := Eligible(sizes, threshold, cfg, n - 1);
      if Frozen(sizes[n - 1], cfg) then r else r + [CandAt(sizes, threshold, n - 1)]
  }

  predicate Joins(b: Bucket, size: real, cfg: TierConfig) {
    size > b.avg * cfg.bucketLow && size < b.avg * cfg.bucketHigh
  }

  function Join(b: Bucket, c: Cand): Bucket {
    var n := |b.members| as real;
    Bucket((b.avg * n + c.size) / (n + 1.0), b.members + [c])
  }

  /** The first bucket at or after `from` that takes `size`, or the end of the list. */
  function FirstFit(buckets: seq<Bucket>, size: real, cfg: TierConfig, from: nat): (i: nat)
    requires from <= |buckets|
    ensures from <= i <= |buckets|
    ensures forall j :: from <= j < i ==> !Joins(buckets[j], size, cfg)
    ensures i < |buckets| ==> Joins(buckets[i], size, cfg)
    decreases |buckets| - from
  {
    if from == |buckets| || Joins(buckets[from], size, cfg) then from
    else FirstFit(buckets, size, cfg, from + 1)
  }

  function Place(buckets: seq<Bucket>, c: Cand, cfg: TierConfig): seq<Bucket> {
    var i := FirstFit(buckets, c.size, cfg, 0);
    if i < |buckets| then buckets[i := Join(buckets[i], c)] else buckets + [Bucket(c.size, [c])]
  }

  function Bucketize(cs: seq<Cand>, cfg: TierConfig): seq<Bucket> {
    if cs == [] then [] else Place(Bucketize(cs[..|cs| - 1], cfg), cs[|cs| - 1], cfg)
  }

  function Avg(): Bucket -> real { (b: Bucket) => b.avg }
  function Size(): Cand -> real { (c: Cand) => c.size }
  function Raw(): Cand -> real { (c: Cand) => c.raw as real }

  /** How many members, smallest first, go into one merge; `k` are already taken. */
  function TakeCount(ms: seq<Cand>, cfg: TierConfig, k: nat, total: nat): (r: nat)
    requires k <= |ms|
    ensures k <= r <= |ms|
    decreases |ms| - k
  {
    if k == |ms| || k >= cfg.maxMerge || (k > 0 && total + ms[k].raw > cfg.maxMergedLen) then k
    else TakeCount(ms, cfg, k + 1, total + ms[k].raw)
  }

  function Chosen(b: Bucket, cfg: TierConfig): seq<Cand> {
    var ms := StableSort(b.members, Raw());
    ms[..TakeCount(ms, cfg, 0, 0)]
  }

  function Positions(cs: seq<Cand>): (r: seq<nat>)
    ensures |r| == |cs| && forall i :: 0 <= i < |cs| ==> r[i] == cs[i].idx
  {
    seq(|cs|, i requires 0 <= i < |cs| => cs[i].idx)
  }

  predicate Mergeable(b: Bucket, cfg: TierConfig) {
    |b.members| >= MinMerge(cfg) && |Chosen(b, cfg)| >= MinMerge(cfg)
  }

  function FirstGroup(buckets: seq<Bucket>, cfg: TierConfig): Option<seq<nat>>
    decreases |buckets|
  {
    if buckets == [] then None
    else if Mergeable(buckets[0], cfg) then Some(Positions(Chosen(buckets[0], cfg)))
    else FirstGroup(buckets[1..], cfg)
  }

  function SortedEligible(sizes: seq<nat>, threshold: nat, cfg: TierConfig): seq<Cand> {
    StableSort(Eligible(sizes, threshold, cfg, |sizes|), Size())
  }

  /** `next_merge_group`: the positions to merge next, or `None`. */
  function SelectGroup(sizes: seq<nat>, threshold: nat, cfg: TierConfig): Option<seq<nat>> {
    if |Eligible(sizes, threshold, cfg, |sizes|)| < MinMerge(cfg) then None
    else FirstGroup(StableSort(Bucketize(SortedEligible(sizes, threshold, cfg), cfg), Avg()), cfg)
  }

  /** The loops of `next_merge_group`. */
  method NextMergeGroup(sizes: seq<nat>, threshold: nat, cfg: TierConfig) returns (r: Option<seq<nat>>)
    ensures r == SelectGroup(sizes, threshold, cfg)
  {
    var elig := Eligible(sizes, threshold, cfg, |sizes|);
    if |elig| < MinMerge(cfg) { return None; }
    elig := StableSort(elig, Size());
    var buckets := BucketizeInPlace(elig, cfg);
    buckets := StableSort(buckets, Avg());
    var n := 0;
    while n < |buckets|
      invariant 0 <= n <= |buckets|
      invariant FirstGroup(buckets, cfg) == FirstGroup(buckets[n..], cfg)
    {
      if |buckets[n].members| >= MinMerge(cfg) {
        var members := StableSort(buckets[n].members, Raw());
        var chosen := TakeMembers(members, cfg);
        if |chosen| >= MinMerge(cfg) { return Some(Positions(chosen)); }
      }
      assert buckets[n..][1..] == buckets[n + 1..];
      n := n + 1;
    }
    return None;
  }

  method BucketizeInPlace(elig: seq<Cand>, cfg: TierConfig) returns (buckets: seq<Bucket>)
    ensures buckets == Bucketize(elig, cfg)
  {
    buckets := [];
    var k := 0;
    while k < |elig|
      invariant 0 <= k <= |elig| && buckets == Bucketize(elig[..k], cfg)
    {
      var c := elig[k];
      assert elig[..k + 1][..k] == elig[..k];
      var i := 0;
      while i < |buckets| && !Joins(buckets[i], c.size, cfg)
        invariant 0 <= i <= |buckets|
        invariant FirstFit(buckets, c.size, cfg, 0) == FirstFit(buckets, c.size, cfg, i)
      {
        i := i + 1;
      }
      if i < |buckets| {
        buckets := buckets[i := Join(buckets[i], c)];
      } else {
        buckets := buckets + [Bucket(c.size, [c])];
      }
      k := k + 1;
    }
    assert elig[..|elig|] == elig;
  }

  method TakeMembers(members: seq<Cand>, cfg: TierConfig) returns (chosen: seq<Cand>)
    ensures chosen == members[..TakeCount(members, cfg, 0, 0)]
  {
    chosen := [];
    var total: nat := 0;
    var k := 0;
    while k < |members|
      invariant 0 <= k <= |members| && chosen == members[..k]
      invariant TakeCount(members, cfg, 0, 0) == TakeCount(members, cfg, k, total)
    {
      if |chosen| >= cfg.maxMerge { break; }
      if |chosen| > 0 && total + members[k].raw > cfg.maxMergedLen { break; }
      total := total + members[k].raw;
      chosen := chosen + [members[k]];
      k := k + 1;
    }
  }
}
