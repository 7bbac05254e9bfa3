/** What a tier merge is guaranteed to be: a set of distinct small segments within the
    caps, whose sizes grow geometrically; and what the buckets are. */
module TierTheorems {
  import opened Base
  import opened Sorting
  import opened Tiering

  ghost predicate DistinctIdx(cs: seq<Cand>) {
    forall i, j :: 0 <= i < j < |cs| ==> cs[i].idx != cs[j].idx
  }

  /** `c` describes a segment that is not frozen. */
  ghost predicate Describes(c: Cand, sizes: seq<nat>, threshold: nat, cfg: TierConfig) {
    c.idx < |sizes| && c == CandAt(sizes, threshold, c.idx) && !Frozen(c.raw, cfg)
  }

  ghost predicate AllDescribe(cs: seq<Cand>, sizes: seq<nat>, threshold: nat, cfg: TierConfig) {
    forall c :: c in cs ==> Describes(c, sizes, threshold, cfg)
  }

  lemma {:induction false} EligibleDescribes(sizes: seq<nat>, threshold: nat, cfg: TierConfig, n: nat)
    requires n <= |sizes|
    ensures AllDescribe(Eligible(sizes, threshold, cfg, n), sizes, threshold, cfg)
    ensures DistinctIdx(Eligible(sizes, threshold, cfg, n))
    ensures forall c :: c in Eligible(sizes, threshold, cfg, n) ==> c.idx < n
  {
    if n > 0 {
      EligibleDescribes(sizes, threshold, cfg, n - 1);
      var r := Eligible(sizes, threshold, cfg, n - 1);
      assert forall i :: 0 <= i < |r| ==> r[i] in r;
    }
  }

  // ---------------------------------------------------------------------------
  // Sorting keeps positions distinct, and raw order refines floored order
  // ---------------------------------------------------------------------------

  lemma {:induction false} InsertDistinct(s: seq<Cand>, c: Cand, key: Cand -> real)
    requires DistinctIdx(s) && forall e :: e in s ==> e.idx != c.idx
    ensures DistinctIdx(InsertSorted(s, c, key))
  {
    if s != [] {
      var n := |s| - 1;
      if !(key(s[n]) <= key(c)) {
        var r := InsertSorted(s[..n], c, key);
        assert forall e :: e in s[..n] ==> e in s;
        InsertDistinct(s[..n], c, key);
        forall i | 0 <= i < |r| ensures r[i].idx != s[n].idx {
          assert r[i] in r;
          assert s[n] in s;
        }
      } else {
        assert forall i :: 0 <= i < |s| ==> s[i] in s;
      }
    }
  }

  lemma {:induction false} SortDistinct(s: seq<Cand>, key: Cand -> real)
    requires DistinctIdx(s)
    ensures DistinctIdx(StableSort(s, key))
  {
    if s != [] {
      var n := |s| - 1;
      SortDistinct(s[..n], key);
      InsertDistinct(StableSort(s[..n], key), s[n], key);
    }
  }

  function SizesOf(cs: seq<Cand>): (r: seq<real>)
    ensures |r| == |cs| && forall i :: 0 <= i < |cs| ==> r[i] == cs[i].size
  {
    seq(|cs|, i requires 0 <= i < |cs| => cs[i].size)
  }

  /** Sizes are the raw counts raised to a common floor. */
  ghost predicate Floored(cs: seq<Cand>, floor: nat) {
    forall c :: c in cs ==> c.size == Max(c.raw, floor) as real
  }

  lemma SizesAppend(ms: seq<Cand>, c: Cand)
    ensures SizesOf(ms + [c]) == SizesOf(ms) + [c.size]
  {
  }

  /** An element that raw order moves past the last one has its floored size. */
  lemma MovePast(s: seq<Cand>, c: Cand, floor: nat)
    requires s != [] && Floored(s + [c], floor) && SortedBy(s + [c], Size()) && s[|s| - 1].raw > c.raw
    ensures var t := s[..|s| - 1] + [c];
            && Floored(t, floor) && SortedBy(t, Size())
            && SizesOf(t) + [s[|s| - 1].size] == SizesOf(s + [c])
  {
    var n, all := |s| - 1, s + [c];
    var t := s[..n] + [c];
    assert all[n] == s[n] && all[n + 1] == c && all[n] in all && all[n + 1] in all;
    assert Size()(all[n]) <= Size()(all[n + 1]);
    assert forall i :: 0 <= i < |t| ==> t[i] == all[if i == n then n + 1 else i];
    forall i, j | 0 <= i < j < |t| ensures Size()(t[i]) <= Size()(t[j]) {
      assert Size()(all[i]) <= Size()(all[if j == n then n + 1 else j]);
    }
  }

  lemma {:induction false} InsertByRaw(s: seq<Cand>, c: Cand, floor: nat)
    requires Floored(s + [c], floor) && SortedBy(s + [c], Size())
    ensures SizesOf(InsertSorted(s, c, Raw())) == SizesOf(s + [c])
  {
    if s != [] {
      var n := |s| - 1;
      if !(Raw()(s[n]) <= Raw()(c)) {
        MovePast(s, c, floor);
        InsertByRaw(s[..n], c, floor);
        SizesAppend(InsertSorted(s[..n], c, Raw()), s[n]);
      }
    }
  }

  /** Equal size lists: one of them sorted makes the other sorted. */
  lemma SortedBySizes(a: seq<Cand>, b: seq<Cand>)
    requires SizesOf(a) == SizesOf(b) && SortedBy(a, Size())
    ensures SortedBy(b, Size())
  {
    forall i, j | 0 <= i < j < |b| ensures Size()(b[i]) <= Size()(b[j]) {
      assert Size()(a[i]) <= Size()(a[j]);
      assert SizesOf(a)[i] == SizesOf(b)[i] && SizesOf(a)[j] == SizesOf(b)[j];
    }
  }

  /** Members sorted by floored size and then by raw count keep their list of floored
      sizes: raw order refines floored order. */
  lemma {:induction false} RawSortKeepsSizes(ms: seq<Cand>, floor: nat)
    requires Floored(ms, floor) && SortedBy(ms, Size())
    ensures SizesOf(StableSort(ms, Raw())) == SizesOf(ms)
  {
    if ms != [] {
      var n := |ms| - 1;
      var init := StableSort(ms[..n], Raw());
      assert ms == ms[..n] + [ms[n]];
      RawSortKeepsSizes(ms[..n], floor);
      SizesAppend(ms[..n], ms[n]);
      SizesAppend(init, ms[n]);
      SortedBySizes(ms, init + [ms[n]]);
      InsertByRaw(init, ms[n], floor);
    }
  }

  // ---------------------------------------------------------------------------
  // The running average
  // ---------------------------------------------------------------------------

  function Sum(rs: seq<real>): real {
    if rs == [] then 0.0 else Sum(rs[..|rs| - 1]) + rs[|rs| - 1]
  }

  ghost predicate Below(x: real, n: nat, high: real, sum: real) { x * (n as real) < high * sum }

  ghost predicate IsMean(avg: real, n: nat, sum: real) { avg * (n as real) == sum }

  /** Each member but the first was, when it joined, below `high` times the mean of the
      members before it. */
  ghost predicate JoinedBelow(rs: seq<real>, high: real) {
    forall j :: 1 <= j < |rs| ==> Below(rs[j], j, high, Sum(rs[..j]))
  }

  ghost predicate BucketOk(b: Bucket, high: real) {
    && |b.members| > 0
    && IsMean(b.avg, |b.members|, Sum(SizesOf(b.members)))
    && SortedBy(b.members, Size())
    && JoinedBelow(SizesOf(b.members), high)
    && DistinctIdx(b.members)
  }

  /** Joining keeps the average equal to the mean. */
  lemma MeanJoin(b: Bucket, c: Cand, sum: real, cfg: TierConfig)
    requires IsMean(b.avg, |b.members|, sum) && |b.members| > 0 && Joins(b, c.size, cfg)
    ensures Below(c.size, |b.members|, cfg.bucketHigh, sum)
    ensures IsMean(Join(b, c).avg, |b.members| + 1, sum + c.size)
  {
    var m := |b.members| as real;
    assert c.size * m < (b.avg * cfg.bucketHigh) * m;
    assert (b.avg * cfg.bucketHigh) * m == cfg.bucketHigh * (b.avg * m);
    assert (|b.members| + 1) as real == m + 1.0;
  }

  lemma JoinedAppend(rs: seq<real>, x: real, high: real)
    requires JoinedBelow(rs, high)
    requires |rs| > 0 ==> Below(x, |rs|, high, Sum(rs))
    ensures JoinedBelow(rs + [x], high) && Sum(rs + [x]) == Sum(rs) + x
  {
    var rs' := rs + [x];
    assert rs'[..|rs|] == rs;
    forall j | 1 <= j < |rs'| ensures Below(rs'[j], j, high, Sum(rs'[..j])) {
      if j < |rs| {
        assert rs'[..j] == rs[..j] && rs'[j] == rs[j];
        assert Below(rs[j], j, high, Sum(rs[..j]));
      }
    }
  }

  lemma AppendInOrder(ms: seq<Cand>, c: Cand)
    requires SortedBy(ms, Size()) && DistinctIdx(ms)
    requires forall e :: e in ms ==> e.size <= c.size && e.idx != c.idx
    ensures SortedBy(ms + [c], Size()) && DistinctIdx(ms + [c])
  {
    forall i | 0 <= i < |ms| ensures Size()(ms[i]) <= Size()(c) && ms[i].idx != c.idx {
      assert ms[i] in ms;
    }
  }

  lemma JoinOk(b: Bucket, c: Cand, cfg: TierConfig)
    requires BucketOk(b, cfg.bucketHigh) && Joins(b, c.size, cfg)
    requires forall e :: e in b.members ==> e.size <= c.size && e.idx != c.idx
    ensures BucketOk(Join(b, c), cfg.bucketHigh)
  {
    MeanJoin(b, c, Sum(SizesOf(b.members)), cfg);
    SizesAppend(b.members, c);
    JoinedAppend(SizesOf(b.members), c.size, cfg.bucketHigh);
    AppendInOrder(b.members, c);
  }

  ghost predicate BucketsOk(buckets: seq<Bucket>, high: real) {
    forall i :: 0 <= i < |buckets| ==> BucketOk(buckets[i], high)
  }

  ghost predicate MembersFrom(buckets: seq<Bucket>, cs: seq<Cand>) {
    forall i, c :: 0 <= i < |buckets| && c in buckets[i].members ==> c in cs
  }

  lemma SingleOk(c: Cand, high: real)
    ensures BucketOk(Bucket(c.size, [c]), high)
  {
    var rs := SizesOf([c]);
    assert rs[..0] == [] && Sum(rs) == Sum(rs[..0]) + rs[0];
  }

  lemma {:induction false} BucketizeOk(cs: seq<Cand>, cfg: TierConfig)
    requires SortedBy(cs, Size()) && DistinctIdx(cs)
    ensures BucketsOk(Bucketize(cs, cfg), cfg.bucketHigh) && MembersFrom(Bucketize(cs, cfg), cs)
  {
    if cs != [] {
      var n := |cs| - 1;
      var c := cs[n];
      var before := Bucketize(cs[..n], cfg);
      BucketizeOk(cs[..n], cfg);
      forall e | e in cs[..n] ensures e.size <= c.size && e.idx != c.idx && e in cs {
        var i :| 0 <= i < n && cs[i] == e;
        assert Size()(cs[i]) <= Size()(cs[n]);
      }
      var i := FirstFit(before, c.size, cfg, 0);
      if i < |before| {
        JoinOk(before[i], c, cfg);
      } else {
        SingleOk(c, cfg.bucketHigh);
      }
    }
  }

  // ---------------------------------------------------------------------------
  // The chosen group
  // ---------------------------------------------------------------------------

  function Total(cs: seq<Cand>): nat {
    if cs == [] then 0 else Total(cs[..|cs| - 1]) + cs[|cs| - 1].raw
  }

  lemma {:induction false} TakeCaps(ms: seq<Cand>, cfg: TierConfig, k: nat, total: nat)
    requires k <= |ms| && total == Total(ms[..k])
    requires k <= cfg.maxMerge && (k > 0 ==> total <= cfg.maxMergedLen)
    requires forall c :: c in ms ==> c.raw <= cfg.maxMergedLen
    ensures TakeCount(ms, cfg, k, total) <= cfg.maxMerge
    ensures TakeCount(ms, cfg, k, total) > 0 ==> Total(ms[..TakeCount(ms, cfg, k, total)]) <= cfg.maxMergedLen
    decreases |ms| - k
  {
    if !(k == |ms| || k >= cfg.maxMerge || (k > 0 && total + ms[k].raw > cfg.maxMergedLen)) {
      assert ms[..k + 1][..k] == ms[..k];
      TakeCaps(ms, cfg, k + 1, total + ms[k].raw);
    }
  }

  lemma {:induction false} FirstGroupFrom(buckets: seq<Bucket>, cfg: TierConfig)
    requires FirstGroup(buckets, cfg).Some?
    ensures exists b :: b in buckets && Mergeable(b, cfg) && FirstGroup(buckets, cfg) == Some(Positions(Chosen(b, cfg)))
    decreases |buckets|
  {
    if Mergeable(buckets[0], cfg) {
      assert buckets[0] in buckets;
    } else {
      FirstGroupFrom(buckets[1..], cfg);
    }
  }

  /** The candidates behind a selected group: a prefix of one bucket, by raw size. */
  ghost predicate Selected(chosen: seq<Cand>, sizes: seq<nat>, threshold: nat, cfg: TierConfig) {
    && MinMerge(cfg) <= |chosen| <= cfg.maxMerge
    && AllDescribe(chosen, sizes, threshold, cfg)
    && DistinctIdx(chosen)
    && Total(chosen) <= cfg.maxMergedLen
    && SortedBy(chosen, Size())
    && JoinedBelow(SizesOf(chosen), cfg.bucketHigh)
  }

  /** A prefix keeps the running-average condition and the order. */
  lemma PrefixKeeps(ms: seq<Cand>, k: nat, high: real)
    requires k <= |ms| && JoinedBelow(SizesOf(ms), high) && SortedBy(ms, Size()) && DistinctIdx(ms)
    ensures JoinedBelow(SizesOf(ms[..k]), high) && SortedBy(ms[..k], Size()) && DistinctIdx(ms[..k])
  {
    var rs := SizesOf(ms);
    assert SizesOf(ms[..k]) == rs[..k];
    forall j | 1 <= j < k ensures Below(rs[..k][j], j, high, Sum(rs[..k][..j])) {
      assert rs[..k][..j] == rs[..j];
    }
  }

  lemma ChosenSelected(b: Bucket, sizes: seq<nat>, threshold: nat, cfg: TierConfig)
    requires BucketOk(b, cfg.bucketHigh) && Mergeable(b, cfg)
    requires AllDescribe(b.members, sizes, threshold, cfg)
    ensures Selected(Chosen(b, cfg), sizes, threshold, cfg)
  {
    var ms := StableSort(b.members, Raw());
    assert ms[..0] == [];
    assert AllDescribe(ms, sizes, threshold, cfg);
    TakeCaps(ms, cfg, 0, 0);
    SortDistinct(b.members, Raw());
    RawSortKeepsSizes(b.members, Floor(threshold));
    SortedBySizes(b.members, ms);
    PrefixKeeps(ms, TakeCount(ms, cfg, 0, 0), cfg.bucketHigh);
  }

  /** Every selected group is a set of distinct, unfrozen segments within the caps. */
  lemma SelectGroupOk(sizes: seq<nat>, threshold: nat, cfg: TierConfig)
    requires SelectGroup(sizes, threshold, cfg).Some?
    ensures exists chosen :: SelectGroup(sizes, threshold, cfg) == Some(Positions(chosen))
                             && Selected(chosen, sizes, threshold, cfg)
  {
    var sorted := StableSort(Bucketize(SortedEligible(sizes, threshold, cfg), cfg), Avg());
    FirstGroupFrom(sorted, cfg);
    var b :| b in sorted && Mergeable(b, cfg) && FirstGroup(sorted, cfg) == Some(Positions(Chosen(b, cfg)));
    BucketMembers(sizes, threshold, cfg, b);
    ChosenSelected(b, sizes, threshold, cfg);
  }

  lemma BucketMembers(sizes: seq<nat>, threshold: nat, cfg: TierConfig, b: Bucket)
    requires b in Bucketize(SortedEligible(sizes, threshold, cfg), cfg)
    ensures BucketOk(b, cfg.bucketHigh) && AllDescribe(b.members, sizes, threshold, cfg)
  {
    var elig := Eligible(sizes, threshold, cfg, |sizes|);
    var cs := SortedEligible(sizes, threshold, cfg);
    var buckets := Bucketize(cs, cfg);
    EligibleDescribes(sizes, threshold, cfg, |sizes|);
    SortSorts(elig, Size());
    SortDistinct(elig, Size());
    BucketizeOk(cs, cfg);
    var i :| 0 <= i < |buckets| && buckets[i] == b;
    forall c | c in b.members ensures Describes(c, sizes, threshold, cfg) { assert c in cs; }
  }

  /** The size bounds of a tier merge, on segment positions. */
  lemma GroupBounds(sizes: seq<nat>, threshold: nat, cfg: TierConfig)
    requires SelectGroup(sizes, threshold, cfg).Some?
    ensures var g := SelectGroup(sizes, threshold, cfg).value;
            && MinMerge(cfg) <= |g| <= cfg.maxMerge
            && Within(g, |sizes|)
            && (forall i, j :: 0 <= i < j < |g| ==> g[i] != g[j])
            && (forall i :: 0 <= i < |g| ==> !Frozen(sizes[g[i]], cfg))
            && SumAt(sizes, g) <= cfg.maxMergedLen
  {
    SelectGroupOk(sizes, threshold, cfg);
    var g := SelectGroup(sizes, threshold, cfg).value;
    var chosen: seq<Cand> :| g == Positions(chosen) && Selected(chosen, sizes, threshold, cfg);
    forall i | 0 <= i < |g| ensures g[i] < |sizes| && chosen[i].raw == sizes[g[i]] && !Frozen(sizes[g[i]], cfg) {
      assert chosen[i] in chosen;
    }
    TotalIsSum(sizes, chosen, |chosen|);
    assert chosen[..|chosen|] == chosen && g[..|g|] == g;
  }

  function SumAt(sizes: seq<nat>, g: seq<nat>): nat
    requires Within(g, |sizes|)
  {
    if g == [] then 0 else SumAt(sizes, g[..|g| - 1]) + sizes[g[|g| - 1]]
  }

  lemma {:induction false} TotalIsSum(sizes: seq<nat>, chosen: seq<Cand>, n: nat)
    requires n <= |chosen|
    requires forall i :: 0 <= i < |chosen| ==> chosen[i].idx < |sizes| && chosen[i].raw == sizes[chosen[i].idx]
    ensures Within(Positions(chosen)[..n], |sizes|)
    ensures Total(chosen[..n]) == SumAt(sizes, Positions(chosen)[..n])
  {
    if n > 0 {
      TotalIsSum(sizes, chosen, n - 1);
      assert chosen[..n][..n - 1] == chosen[..n - 1];
      assert Positions(chosen)[..n][..n - 1] == Positions(chosen)[..n - 1];
    }
  }

  // ---------------------------------------------------------------------------
  // Geometric growth
  // ---------------------------------------------------------------------------

  /** The item count of a segment raised to the floor. */
  function FlooredSize(size: nat, threshold: nat): real { Max(size, Floor(threshold)) as real }

  function FlooredSum(sizes: seq<nat>, threshold: nat, g: seq<nat>): real
    requires Within(g, |sizes|)
  {
    if g == [] then 0.0
    else FlooredSum(sizes, threshold, g[..|g| - 1]) + FlooredSize(sizes[g[|g| - 1]], threshold)
  }

  lemma {:induction false} FlooredSumIsSum(sizes: seq<nat>, threshold: nat, chosen: seq<Cand>, n: nat)
    requires n <= |chosen| && Within(Positions(chosen), |sizes|)
    requires forall i :: 0 <= i < |chosen| ==> chosen[i] == CandAt(sizes, threshold, chosen[i].idx)
    ensures Within(Positions(chosen)[..n], |sizes|)
    ensures FlooredSum(sizes, threshold, Positions(chosen)[..n]) == Sum(SizesOf(chosen)[..n])
  {
    if n > 0 {
      FlooredSumIsSum(sizes, threshold, chosen, n - 1);
      assert Positions(chosen)[..n][..n - 1] == Positions(chosen)[..n - 1];
      assert SizesOf(chosen)[..n][..n - 1] == SizesOf(chosen)[..n - 1];
    }
  }

  lemma WholeFlooredSum(sizes: seq<nat>, threshold: nat, chosen: seq<Cand>)
    requires Within(Positions(chosen), |sizes|)
    requires forall i :: 0 <= i < |chosen| ==> chosen[i] == CandAt(sizes, threshold, chosen[i].idx)
    ensures FlooredSum(sizes, threshold, Positions(chosen)) == Sum(SizesOf(chosen))
  {
    FlooredSumIsSum(sizes, threshold, chosen, |chosen|);
    assert Positions(chosen)[..|chosen|] == Positions(chosen) && SizesOf(chosen)[..|chosen|] == SizesOf(chosen);
  }

  lemma {:induction false} SumNonNegative(rs: seq<real>)
    requires forall i :: 0 <= i < |rs| ==> rs[i] >= 0.0
    ensures Sum(rs) >= 0.0
  {
    if rs != [] { SumNonNegative(rs[..|rs| - 1]); }
  }

  lemma CancelFactor(a: real, b: real, h: real)
    requires h > 0.0 && a * h <= b * h
    ensures a <= b
  {
  }

  lemma ScaleLe(a: real, b: real, h: real)
    requires h >= 0.0 && a <= b
    ensures h * a <= h * b
  {
  }

  /** By how much a merge of `k` segments outgrows its largest input. */
  function Growth(k: nat, high: real): real
    requires high > 0.0 && k > 0
  {
    1.0 + (k - 1) as real / high
  }

  /** `sum` is more than the growth factor of `k` inputs times `x`. */
  ghost predicate Outgrows(sum: real, k: nat, high: real, x: real) {
    high > 0.0 && k > 0 && sum > Growth(k, high) * x
  }

  lemma OutgrowsSmaller(sum: real, k: nat, high: real, x: real, y: real)
    requires Outgrows(sum, k, high, x) && y <= x
    ensures Outgrows(sum, k, high, y)
  {
    assert Growth(k, high) >= 0.0;
    ScaleLe(y, x, Growth(k, high));
  }

  /** The arithmetic of one merge: the last size is below `high` times the mean before it. */
  lemma GrowthArith(x: real, n: nat, high: real, sum: real)
    requires n > 0 && x > 0.0 && sum >= 0.0 && Below(x, n, high, sum)
    ensures Outgrows(sum + x, n + 1, high, x)
  {
    var m := n as real;
    assert 0.0 < x * m < high * sum;
    var q := x * m / high;
    assert q * high == x * m && high * sum == sum * high;
    CancelFactor(q, sum, high);
    assert (1.0 + m / high) * x == x + q;
  }

  lemma GrowthOf(rs: seq<real>, high: real)
    requires |rs| >= 2 && JoinedBelow(rs, high)
    requires forall i :: 0 <= i < |rs| ==> 1.0 <= rs[i] <= rs[|rs| - 1]
    ensures forall i :: 0 <= i < |rs| ==> Outgrows(Sum(rs), |rs|, high, rs[i])
  {
    var n := |rs| - 1;
    SumNonNegative(rs[..n]);
    assert Below(rs[n], n, high, Sum(rs[..n]));
    GrowthArith(rs[n], n, high, Sum(rs[..n]));
    forall i | 0 <= i <= n ensures Outgrows(Sum(rs), |rs|, high, rs[i]) {
      OutgrowsSmaller(Sum(rs), |rs|, high, rs[n], rs[i]);
    }
  }

  /** The sizes of a selected list of candidates, the largest of them last. */
  lemma SelectedSizes(chosen: seq<Cand>, sizes: seq<nat>, threshold: nat, cfg: TierConfig)
    requires Selected(chosen, sizes, threshold, cfg)
    ensures var g, rs := Positions(chosen), SizesOf(chosen);
            && Within(g, |sizes|)
            && (forall i :: 0 <= i < |g| ==> chosen[i] == CandAt(sizes, threshold, g[i]))
            && (forall i :: 0 <= i < |g| ==>
                  rs[i] == FlooredSize(sizes[g[i]], threshold) && 1.0 <= rs[i] <= rs[|g| - 1])
  {
    var n := |chosen| - 1;
    forall i | 0 <= i <= n
      ensures chosen[i].idx < |sizes| && chosen[i] == CandAt(sizes, threshold, chosen[i].idx)
      ensures chosen[i].size <= chosen[n].size
    {
      assert chosen[i] in chosen;
      assert i < n ==> Size()(chosen[i]) <= Size()(chosen[n]);
    }
  }

  /** The same on any list of positions whose floored sizes are `rs`, the largest last. */
  lemma ListOutgrows(sizes: seq<nat>, threshold: nat, high: real, g: seq<nat>, rs: seq<real>)
    requires 2 <= |rs| == |g| && Within(g, |sizes|) && FlooredSum(sizes, threshold, g) == Sum(rs)
    requires JoinedBelow(rs, high)
    requires forall i :: 0 <= i < |g| ==> rs[i] == FlooredSize(sizes[g[i]], threshold) && 1.0 <= rs[i] <= rs[|g| - 1]
    ensures forall i :: 0 <= i < |g| ==>
              Outgrows(FlooredSum(sizes, threshold, g), |g|, high, FlooredSize(sizes[g[i]], threshold))
  {
    GrowthOf(rs, high);
    forall i | 0 <= i < |g|
      ensures Outgrows(FlooredSum(sizes, threshold, g), |g|, high, FlooredSize(sizes[g[i]], threshold))
    {
      assert Outgrows(Sum(rs), |rs|, high, rs[i]);
    }
  }

  lemma ChosenOutgrows(chosen: seq<Cand>, sizes: seq<nat>, threshold: nat, cfg: TierConfig)
    requires Selected(chosen, sizes, threshold, cfg)
    ensures var g := Positions(chosen);
            && Within(g, |sizes|)
            && forall i :: 0 <= i < |g| ==>
                 Outgrows(FlooredSum(sizes, threshold, g), |g|, cfg.bucketHigh, FlooredSize(sizes[g[i]], threshold))
  {
    var g, rs := Positions(chosen), SizesOf(chosen);
    SelectedSizes(chosen, sizes, threshold, cfg);
    WholeFlooredSum(sizes, threshold, chosen);
    ListOutgrows(sizes, threshold, cfg.bucketHigh, g, rs);
  }

  /** One tier merge of `k` segments produces more than `1 + (k - 1) / bucket_high` times
      any of its inputs, in floored sizes. */
  lemma GeometricGrowth(sizes: seq<nat>, threshold: nat, cfg: TierConfig)
    requires SelectGroup(sizes, threshold, cfg).Some?
    ensures var g := SelectGroup(sizes, threshold, cfg).value;
            && |g| >= 2 && Within(g, |sizes|)
            && forall i :: 0 <= i < |g| ==>
                 Outgrows(FlooredSum(sizes, threshold, g), |g|, cfg.bucketHigh, FlooredSize(sizes[g[i]], threshold))
  {
    SelectGroupOk(sizes, threshold, cfg);
    var chosen: seq<Cand> :| SelectGroup(sizes, threshold, cfg) == Some(Positions(chosen))
                             && Selected(chosen, sizes, threshold, cfg);
    ChosenOutgrows(chosen, sizes, threshold, cfg);
  }

  // ---------------------------------------------------------------------------
  // First fit is a contiguous partition
  // ---------------------------------------------------------------------------

  function Flatten(buckets: seq<Bucket>): seq<Cand> {
    if buckets == [] then [] else Flatten(buckets[..|buckets| - 1]) + buckets[|buckets| - 1].members
  }

  /** No size from `next` on can join the bucket again. */
  ghost predicate Closed(b: Bucket, next: real, high: real) { next >= b.avg * high }

  /** Positive averages between the first and the last member. */
  ghost predicate Bracketed(b: Bucket) {
    && |b.members| > 0 && 0.0 < b.members[0].size
    && b.members[0].size <= b.avg <= b.members[|b.members| - 1].size
  }

  /** Consecutive runs of the sorted list, each closed to the sizes after it. */
  ghost predicate Partition(buckets: seq<Bucket>, cs: seq<Cand>, high: real) {
    && Flatten(buckets) == cs
    && (forall i :: 0 <= i < |buckets| ==> Bracketed(buckets[i]))
    && (forall i :: 0 <= i < |buckets| - 1 ==>
          Closed(buckets[i], buckets[i + 1].members[0].size, high) && buckets[i].avg <= buckets[i + 1].members[0].size)
    && (forall i, j :: 0 <= i < j < |buckets| ==> buckets[i].members[0].size <= buckets[j].members[0].size)
  }

  lemma JoinBetween(b: Bucket, c: Cand)
    requires Bracketed(b) && b.members[|b.members| - 1].size <= c.size
    ensures Bracketed(Join(b, c))
  {
    var n := |b.members| as real;
    var a' := Join(b, c).avg;
    assert a' * (n + 1.0) == b.avg * n + c.size;
    assert b.avg * (n + 1.0) == b.avg * n + b.avg && c.size * (n + 1.0) == c.size * n + c.size;
    CancelFactor(b.avg, a', n + 1.0);
    ScaleLe(b.avg, c.size, n);
    CancelFactor(a', c.size, n + 1.0);
  }

  lemma ClosedNotJoined(b: Bucket, next: real, size: real, cfg: TierConfig)
    requires Closed(b, next, cfg.bucketHigh) && next <= size
    ensures !Joins(b, size, cfg)
  {
  }

  /** With `low` below one, only the last bucket can take the next size. */
  lemma {:induction false} OnlyLastJoins(buckets: seq<Bucket>, cs: seq<Cand>, c: Cand, cfg: TierConfig)
    requires Partition(buckets, cs, cfg.bucketHigh)
    requires forall i :: 0 <= i < |buckets| ==> buckets[i].members[0].size <= c.size
    ensures FirstFit(buckets, c.size, cfg, 0) >= |buckets| - 1
  {
    forall i | 0 <= i < |buckets| - 1 ensures !Joins(buckets[i], c.size, cfg) {
      ClosedNotJoined(buckets[i], buckets[i + 1].members[0].size, c.size, cfg);
    }
  }

  lemma {:induction false} FlattenLast(buckets: seq<Bucket>, b: Bucket)
    ensures Flatten(buckets + [b]) == Flatten(buckets) + b.members
  {
    assert (buckets + [b])[..|buckets|] == buckets;
  }

  lemma {:induction false} FlattenMember(buckets: seq<Bucket>, i: nat, c: Cand)
    requires i < |buckets| && c in buckets[i].members
    ensures c in Flatten(buckets)
  {
    if i < |buckets| - 1 { FlattenMember(buckets[..|buckets| - 1], i, c); }
  }

  lemma JoinLastPartition(buckets: seq<Bucket>, cs: seq<Cand>, c: Cand, high: real)
    requires Partition(buckets, cs, high) && |buckets| > 0
    requires forall e :: e in buckets[|buckets| - 1].members ==> e.size <= c.size
    ensures Partition(buckets[..|buckets| - 1] + [Join(buckets[|buckets| - 1], c)], cs + [c], high)
  {
    var n := |buckets| - 1;
    var last := buckets[n];
    var joined := buckets[..n] + [Join(last, c)];
    assert last.members[|last.members| - 1] in last.members;
    JoinBetween(last, c);
    FlattenLast(buckets[..n], Join(last, c));
    assert forall i :: 0 <= i <= n ==> joined[i].members[0] == buckets[i].members[0];
    assert forall i :: 0 <= i < n ==> joined[i] == buckets[i];
  }

  lemma OpenPartition(buckets: seq<Bucket>, cs: seq<Cand>, c: Cand, high: real)
    requires Partition(buckets, cs, high) && 0.0 < c.size
    requires forall i :: 0 <= i < |buckets| ==> buckets[i].members[0].size <= c.size
    requires |buckets| > 0 ==> Closed(buckets[|buckets| - 1], c.size, high) && buckets[|buckets| - 1].avg <= c.size
    ensures Partition(buckets + [Bucket(c.size, [c])], cs + [c], high)
  {
    FlattenLast(buckets, Bucket(c.size, [c]));
    var wider := buckets + [Bucket(c.size, [c])];
    assert forall i :: 0 <= i < |buckets| ==> wider[i] == buckets[i];
  }

  lemma PlacePartition(buckets: seq<Bucket>, cs: seq<Cand>, c: Cand, cfg: TierConfig)
    requires cfg.bucketLow < 1.0 && 0.0 < c.size
    requires Partition(buckets, cs, cfg.bucketHigh)
    requires forall e :: e in cs ==> e.size <= c.size
    ensures Partition(Place(buckets, c, cfg), cs + [c], cfg.bucketHigh)
  {
    forall i: nat, e | i < |buckets| && e in buckets[i].members ensures e.size <= c.size {
      FlattenMember(buckets, i, e);
    }
    forall i | 0 <= i < |buckets|
      ensures buckets[i].members[0].size <= c.size && buckets[i].avg <= c.size
    {
      assert buckets[i].members[0] in buckets[i].members;
      assert buckets[i].members[|buckets[i].members| - 1] in buckets[i].members;
    }
    OnlyLastJoins(buckets, cs, c, cfg);
    var n := |buckets|;
    var i := FirstFit(buckets, c.size, cfg, 0);
    if i < n {
      assert Place(buckets, c, cfg) == buckets[..n - 1] + [Join(buckets[n - 1], c)];
      JoinLastPartition(buckets, cs, c, cfg.bucketHigh);
    } else {
      if n > 0 { NotJoinedIsClosed(buckets[n - 1], c.size, cfg); }
      OpenPartition(buckets, cs, c, cfg.bucketHigh);
    }
  }

  /** A size at or above the average that does not join is past the upper edge. */
  lemma NotJoinedIsClosed(b: Bucket, size: real, cfg: TierConfig)
    requires cfg.bucketLow < 1.0 && Bracketed(b) && b.avg <= size && !Joins(b, size, cfg)
    ensures Closed(b, size, cfg.bucketHigh)
  {
    PastTheEdge(b.avg, cfg.bucketLow, cfg.bucketHigh, size);
  }

  lemma PastTheEdge(avg: real, low: real, high: real, size: real)
    requires avg > 0.0 && low < 1.0 && avg <= size
    requires !(size > avg * low && size < avg * high)
    ensures size >= avg * high
  {
    BelowItself(avg, low);
  }

  lemma BelowItself(avg: real, low: real)
    requires avg > 0.0 && low < 1.0
    ensures avg * low < avg
  {
    var d := 1.0 - low;
    assert d * avg > 0.0;
    assert avg * low == avg - d * avg;
  }

  /** The sorted list without its last element, which is the largest. */
  lemma InitBelowLast(cs: seq<Cand>)
    requires cs != [] && SortedBy(cs, Size()) && forall c :: c in cs ==> 0.0 < c.size
    ensures var init, c := cs[..|cs| - 1], cs[|cs| - 1];
            && init + [c] == cs && 0.0 < c.size && SortedBy(init, Size())
            && forall e :: e in init ==> e.size <= c.size && 0.0 < e.size
  {
    var n := |cs| - 1;
    forall e | e in cs[..n] ensures e.size <= cs[n].size && 0.0 < e.size {
      var i :| 0 <= i < n && cs[i] == e;
      assert Size()(cs[i]) <= Size()(cs[n]);
    }
  }

  lemma {:induction false} BucketizePartition(cs: seq<Cand>, cfg: TierConfig)
    requires cfg.bucketLow < 1.0 && SortedBy(cs, Size()) && forall c :: c in cs ==> 0.0 < c.size
    ensures Partition(Bucketize(cs, cfg), cs, cfg.bucketHigh)
  {
    if cs != [] {
      InitBelowLast(cs);
      var init, c := cs[..|cs| - 1], cs[|cs| - 1];
      BucketizePartition(init, cfg);
      PlacePartition(Bucketize(init, cfg), init, c, cfg);
    }
  }

  /** What the bucketing loop starts from: unfrozen segments, ascending. */
  lemma SortedEligibleOk(sizes: seq<nat>, threshold: nat, cfg: TierConfig)
    ensures var cs := SortedEligible(sizes, threshold, cfg);
            SortedBy(cs, Size()) && DistinctIdx(cs) && forall c :: c in cs ==> 0.0 < c.size
  {
    var elig := Eligible(sizes, threshold, cfg, |sizes|);
    EligibleDescribes(sizes, threshold, cfg, |sizes|);
    SortSorts(elig, Size());
    SortDistinct(elig, Size());
    forall c | c in SortedEligible(sizes, threshold, cfg) ensures 0.0 < c.size { assert c in elig; }
  }

  lemma AveragesAscend(buckets: seq<Bucket>, cs: seq<Cand>, high: real)
    requires Partition(buckets, cs, high)
    ensures SortedBy(buckets, Avg())
  {
    forall i, j | 0 <= i < j < |buckets| ensures Avg()(buckets[i]) <= Avg()(buckets[j]) {
      assert buckets[i].avg <= buckets[i + 1].members[0].size;
      assert Bracketed(buckets[j]);
    }
  }

  ghost predicate MeansOk(buckets: seq<Bucket>) {
    forall b :: b in buckets ==> |b.members| > 0 && IsMean(b.avg, |b.members|, Sum(SizesOf(b.members)))
  }

  /** With `bucket_low` below one the buckets are consecutive runs of the sorted
      eligible list, each average is the mean of its members, and the averages already
      ascend, so sorting the buckets changes nothing. */
  lemma BucketsAreRuns(sizes: seq<nat>, threshold: nat, cfg: TierConfig)
    requires cfg.bucketLow < 1.0
    ensures var cs := SortedEligible(sizes, threshold, cfg);
            var buckets := Bucketize(cs, cfg);
            Flatten(buckets) == cs && MeansOk(buckets) && StableSort(buckets, Avg()) == buckets
  {
    var cs := SortedEligible(sizes, threshold, cfg);
    var buckets := Bucketize(cs, cfg);
    SortedEligibleOk(sizes, threshold, cfg);
    BucketizeOk(cs, cfg);
    assert MeansOk(buckets) by {
      forall b | b in buckets ensures BucketOk(b, cfg.bucketHigh) {
        var i :| 0 <= i < |buckets| && buckets[i] == b;
      }
    }
    BucketizePartition(cs, cfg);
    AveragesAscend(buckets, cs, cfg.bucketHigh);
    SortOfSorted(buckets, Avg());
  }

  // ---------------------------------------------------------------------------
  // Nothing is missed: candidates, bands, buckets, groups
  // ---------------------------------------------------------------------------

  /** The candidates are exactly the segments of at most half the cap, each under its own
      size, raised to the flush threshold and to one. */
  lemma {:induction false} EligibleExact(sizes: seq<nat>, threshold: nat, cfg: TierConfig, n: nat, c: Cand)
    requires n <= |sizes|
    ensures c in Eligible(sizes, threshold, cfg, n) <==>
              && c.idx < n && c.raw == sizes[c.idx] && c.raw <= cfg.maxMergedLen / 2
              && c.size >= threshold as real && c.size >= 1.0 && c.size >= c.raw as real
              && (c.size == threshold as real || c.size == 1.0 || c.size == c.raw as real)
  {
    if n > 0 { EligibleExact(sizes, threshold, cfg, n - 1, c); }
  }

  /** The size lies strictly inside the band around the running average. */
  ghost predicate InBand(b: Bucket, size: real, cfg: TierConfig) {
    b.avg * cfg.bucketLow < size < b.avg * cfg.bucketHigh
  }

  /** `c` went into bucket `i`, whose average is now the mean with it, and nowhere else. */
  ghost predicate JoinedAt(before: seq<Bucket>, after: seq<Bucket>, c: Cand, i: nat) {
    && |after| == |before| && i < |before|
    && after[i].members == before[i].members + [c]
    && after[i].avg * (|before[i].members| + 1) as real == before[i].avg * |before[i].members| as real + c.size
    && forall j: nat :: j < |before| && j != i ==> after[j] == before[j]
  }

  /** For every band: a candidate joins the first bucket whose band holds its size, and
      opens a bucket of its own exactly when there is none. */
  lemma PlaceExact(before: seq<Bucket>, c: Cand, cfg: TierConfig)
    ensures var after := Place(before, c, cfg);
            if exists i: nat :: i < |before| && InBand(before[i], c.size, cfg) then
              exists i: nat :: i < |before| && InBand(before[i], c.size, cfg) && JoinedAt(before, after, c, i)
                               && forall j: nat :: j < i ==> !InBand(before[j], c.size, cfg)
            else after == before + [Bucket(c.size, [c])]
  {
    var i := FirstFit(before, c.size, cfg, 0);
    if i < |before| {
      MeanOf(before[i], c);
      assert InBand(before[i], c.size, cfg) && JoinedAt(before, Place(before, c, cfg), c, i);
    }
  }

  lemma MeanOf(b: Bucket, c: Cand)
    ensures Join(b, c).avg * (|b.members| + 1) as real == b.avg * |b.members| as real + c.size
  {
    var n := |b.members| as real;
    var sum := b.avg * n + c.size;
    assert sum / (n + 1.0) * (n + 1.0) == sum;
  }

  lemma {:induction false} BucketNotLarger(cs: seq<Cand>, cfg: TierConfig)
    ensures forall b :: b in Bucketize(cs, cfg) ==> |b.members| <= |cs|
  {
    if cs != [] { BucketNotLarger(cs[..|cs| - 1], cfg); }
  }

  lemma {:induction false} TotalMonotone(cs: seq<Cand>, a: nat, b: nat)
    requires a <= b <= |cs|
    ensures Total(cs[..a]) <= Total(cs[..b])
  {
    if a < b {
      TotalMonotone(cs, a, b - 1);
      assert cs[..b][..b - 1] == cs[..b - 1];
    }
  }

  /** The first `k` members fit, and there is no room or no reason to take one more. */
  ghost predicate Taken(ms: seq<Cand>, k: nat, cfg: TierConfig) {
    && k <= |ms| && k <= cfg.maxMerge && (k > 1 ==> Total(ms[..k]) <= cfg.maxMergedLen)
    && (k == |ms| || k == cfg.maxMerge || (k > 0 && Total(ms[..k + 1]) > cfg.maxMergedLen))
  }

  lemma {:induction false} TakeExact(ms: seq<Cand>, cfg: TierConfig, k: nat, total: nat)
    requires k <= |ms| && k <= cfg.maxMerge && total == Total(ms[..k])
    requires k > 1 ==> total <= cfg.maxMergedLen
    ensures Taken(ms, TakeCount(ms, cfg, k, total), cfg)
    decreases |ms| - k
  {
    if k < |ms| {
      assert ms[..k + 1][..k] == ms[..k];
      if !(k >= cfg.maxMerge || (k > 0 && total + ms[k].raw > cfg.maxMergedLen)) {
        TakeExact(ms, cfg, k + 1, total + ms[k].raw);
      }
    }
  }

  ghost predicate AtLeastMin(k: nat, cfg: TierConfig) { k >= 2 && k >= cfg.minMerge }

  /** A merge of enough members fits the width and the cap: their smallest do. */
  ghost predicate Usable(b: Bucket, cfg: TierConfig) {
    exists k: nat :: k <= |b.members| && k <= cfg.maxMerge && AtLeastMin(k, cfg)
                     && Total(StableSort(b.members, Raw())[..k]) <= cfg.maxMergedLen
  }

  lemma MergeableIff(b: Bucket, cfg: TierConfig)
    ensures Mergeable(b, cfg) <==> Usable(b, cfg)
  {
    var ms := StableSort(b.members, Raw());
    var r := TakeCount(ms, cfg, 0, 0);
    assert ms[..0] == [];
    TakeExact(ms, cfg, 0, 0);
    if Mergeable(b, cfg) {
      assert AtLeastMin(r, cfg);
    }
    if Usable(b, cfg) {
      var k: nat :| k <= |ms| && k <= cfg.maxMerge && AtLeastMin(k, cfg) && Total(ms[..k]) <= cfg.maxMergedLen;
      if r < k { TotalMonotone(ms, r + 1, k); }
      assert r >= k;
    }
  }

  /** The group is the longest run of smallest members of the bucket that both caps allow. */
  ghost predicate GroupOf(g: seq<nat>, b: Bucket, cfg: TierConfig) {
    var ms := StableSort(b.members, Raw());
    Taken(ms, |g|, cfg) && AtLeastMin(|g|, cfg) && g == Positions(ms[..|g|])
  }

  lemma ChosenIsGroup(b: Bucket, cfg: TierConfig)
    requires Mergeable(b, cfg)
    ensures GroupOf(Positions(Chosen(b, cfg)), b, cfg)
  {
    var ms := StableSort(b.members, Raw());
    assert ms[..0] == [];
    TakeExact(ms, cfg, 0, 0);
  }

  lemma {:induction false} FirstGroupExact(buckets: seq<Bucket>, cfg: TierConfig)
    ensures match FirstGroup(buckets, cfg)
            case None => forall b :: b in buckets ==> !Usable(b, cfg)
            case Some(g) =>
              exists i: nat :: i < |buckets| && Usable(buckets[i], cfg) && GroupOf(g, buckets[i], cfg)
                               && forall j: nat :: j < i ==> !Usable(buckets[j], cfg)
    decreases |buckets|
  {
    if buckets != [] {
      MergeableIff(buckets[0], cfg);
      if Mergeable(buckets[0], cfg) {
        ChosenIsGroup(buckets[0], cfg);
      } else {
        var rest := buckets[1..];
        FirstGroupExact(rest, cfg);
        if FirstGroup(rest, cfg).Some? {
          var g := FirstGroup(rest, cfg).value;
          var i: nat :| i < |rest| && Usable(rest[i], cfg) && GroupOf(g, rest[i], cfg)
                        && forall j: nat :: j < i ==> !Usable(rest[j], cfg);
          assert buckets[i + 1] == rest[i];
          forall j: nat | j < i + 1 ensures !Usable(buckets[j], cfg) {
            if j > 0 { assert buckets[j] == rest[j - 1]; }
          }
        } else {
          forall b | b in buckets ensures !Usable(b, cfg) { assert b == buckets[0] || b in rest; }
        }
      }
    }
  }

  /** No bucket of the current sizes has a merge that both caps allow. */
  ghost predicate NothingUsable(sizes: seq<nat>, threshold: nat, cfg: TierConfig) {
    forall b :: b in Bucketize(SortedEligible(sizes, threshold, cfg), cfg) ==> !Usable(b, cfg)
  }

  /** `g` is the group of a usable bucket, and no usable bucket has a smaller average. */
  ghost predicate SmallestTier(g: seq<nat>, sizes: seq<nat>, threshold: nat, cfg: TierConfig) {
    var buckets := Bucketize(SortedEligible(sizes, threshold, cfg), cfg);
    exists b :: b in buckets && Usable(b, cfg) && GroupOf(g, b, cfg)
                && forall other :: other in buckets && Usable(other, cfg) ==> b.avg <= other.avg
  }

  /** `next_merge_group` misses no tier: it finds nothing only if nothing is usable, and
      otherwise takes the whole of what the caps allow from the smallest usable tier. */
  lemma SelectExact(sizes: seq<nat>, threshold: nat, cfg: TierConfig)
    ensures match SelectGroup(sizes, threshold, cfg)
            case None => NothingUsable(sizes, threshold, cfg)
            case Some(g) => SmallestTier(g, sizes, threshold, cfg) && !NothingUsable(sizes, threshold, cfg)
  {
    var cs := SortedEligible(sizes, threshold, cfg);
    var buckets := Bucketize(cs, cfg);
    var sorted := StableSort(buckets, Avg());
    SortSorts(buckets, Avg());
    if |Eligible(sizes, threshold, cfg, |sizes|)| < MinMerge(cfg) {
      BucketNotLarger(cs, cfg);
    } else {
      FirstGroupExact(sorted, cfg);
      if FirstGroup(sorted, cfg).Some? { FirstIsSmallest(buckets, sorted, FirstGroup(sorted, cfg).value, cfg); }
    }
  }

  lemma FirstIsSmallest(buckets: seq<Bucket>, sorted: seq<Bucket>, g: seq<nat>, cfg: TierConfig)
    requires SortedBy(sorted, Avg()) && forall b :: b in sorted <==> b in buckets
    requires exists i: nat :: i < |sorted| && Usable(sorted[i], cfg) && GroupOf(g, sorted[i], cfg)
                              && forall j: nat :: j < i ==> !Usable(sorted[j], cfg)
    ensures exists b :: b in buckets && Usable(b, cfg) && GroupOf(g, b, cfg)
                        && forall other :: other in buckets && Usable(other, cfg) ==> b.avg <= other.avg
  {
    var i: nat :| i < |sorted| && Usable(sorted[i], cfg) && GroupOf(g, sorted[i], cfg)
                  && forall j: nat :: j < i ==> !Usable(sorted[j], cfg);
    assert sorted[i] in sorted;
    forall other | other in buckets && Usable(other, cfg) ensures sorted[i].avg <= other.avg {
      assert other in sorted;
      var j: nat :| j < |sorted| && sorted[j] == other;
      if j != i { assert Avg()(sorted[i]) <= Avg()(sorted[j]); }
    }
  }
}
