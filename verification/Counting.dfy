/** Live counts, space amplification and reclaiming. */
module Counting {
  import opened Base
  import opened Memory
  import opened Refinement
  import opened Merging
  import opened Compaction
  import opened Protocol
  import TierTheorems

  /** `live_len` of segment number `i`. */
  function LiveCount(m: Mem, i: nat): nat
    requires |m.segments| == |m.segmentIds| && i < |m.segments|
  {
    |LiveOf(m, i)|
  }

  function TotalLive(m: Mem, n: nat): nat
    requires |m.segments| == |m.segmentIds| && n <= |m.segments|
  {
    if n == 0 then 0 else TotalLive(m, n - 1) + LiveCount(m, n - 1)
  }

  function TotalStored(m: Mem, n: nat): nat
    requires n <= |m.segments|
  {
    if n == 0 then 0 else TotalStored(m, n - 1) + |m.segments[n - 1]|
  }

  /** `stored_len`: items physically held. */
  function StoredLen(m: Mem): nat { TotalStored(m, |m.segments|) + |m.buffer| }

  // ---------------------------------------------------------------------------
  // The live totals count the map
  // ---------------------------------------------------------------------------

  lemma {:induction false} DistinctCount(es: seq<Entry>)
    requires DistinctIds(es)
    ensures |IdsOf(es)| == |es|
  {
    if es != [] {
      var n := |es| - 1;
      DistinctCount(es[..n]);
      assert es == es[..n] + [es[n]];
      assert IdsOf(es) == IdsOf(es[..n]) + {es[n].0};
    } else {
      assert IdsOf(es) == {};
    }
  }

  lemma {:induction false} LivePartsLength(m: Mem, n: nat)
    requires |m.segments| == |m.segmentIds| && n <= |m.segments|
    ensures Within(UpTo(n), |m.segments|)
    ensures |Concat(LiveParts(m, UpTo(n)))| == TotalLive(m, n)
  {
    if n > 0 {
      LivePartsLength(m, n - 1);
      var parts := LiveParts(m, UpTo(n));
      assert parts[..n - 1] == LiveParts(m, UpTo(n - 1));
    }
  }

  /** Every owned id is counted in exactly one segment. */
  lemma OwnersCount(m: Mem)
    requires MemInv(m)
    ensures |m.owners.Keys| == TotalLive(m, |m.segments|)
  {
    var all := UpTo(|m.segments|);
    MergedIsOutput(m, all);
    MergedIsLive(m, all);
    LivePartsLength(m, |m.segments|);
    OutputOfAll(m, Merged(m, all));
  }

  /** A merge of everything outputs every owned id. */
  lemma OutputOfAll(m: Mem, merged: Segment)
    requires MemInv(m) && LiveOutput(m, UpTo(|m.segments|), merged)
    ensures |m.owners.Keys| == |merged|
  {
    var all := UpTo(|m.segments|);
    forall x | x in m.owners ensures m.owners[x] in GroupIds(m, all) {
      assert HasCopy(m.segments, m.segmentIds, m.owners[x], x);
      var s: nat :| s < |m.segments| && m.segmentIds[s] == m.owners[x];
      assert all[s] == s;
    }
    assert IdsOf(merged) == m.owners.Keys;
    DistinctCount(merged);
  }

  /** The ids of the map are the owned ids and the buffered ids. */
  lemma MapKeys(m: Mem, r: RefMap)
    requires MemInv(m) && Represents(m, r)
    ensures r.Keys == m.owners.Keys + m.bufferIds
  {
    forall x | x in r ensures x in m.owners || x in m.bufferIds {
      assert Visible(m, (x, r[x]));
      VisibleIds(m, (x, r[x]));
    }
    forall x | x in m.owners ensures x in r {
      var s: nat :| s < |m.segments| && m.segmentIds[s] == m.owners[x] && x in IdsOf(m.segments[s]);
      var e :| e in m.segments[s] && e.0 == x;
      LiveIffOwned(m, s, x);
      assert LiveSealed(m, s, e) && Visible(m, e);
    }
    forall x | x in m.bufferIds ensures x in r {
      var e :| e in m.buffer && e.0 == x;
      assert Visible(m, e);
    }
  }

  /** The live totals over the segments plus the buffer are the size of the map. */
  lemma LiveTotalIsSize(m: Mem, r: RefMap)
    requires MemInv(m) && Represents(m, r)
    ensures TotalLive(m, |m.segments|) + |m.buffer| == |r|
  {
    MapKeys(m, r);
    OwnersCount(m);
    DistinctCount(m.buffer);
    assert |r| == |r.Keys|;
    assert |m.owners.Keys + m.bufferIds| == |m.owners.Keys| + |m.bufferIds|;
  }

  lemma {:induction false} LiveAtMostStored(m: Mem, n: nat)
    requires |m.segments| == |m.segmentIds| && n <= |m.segments|
    ensures TotalLive(m, n) <= TotalStored(m, n)
  {
    if n > 0 { LiveAtMostStored(m, n - 1); }
  }

  // ---------------------------------------------------------------------------
  // Which live sets an operation changes
  // ---------------------------------------------------------------------------

  lemma {:induction false} FilterTwice(es: seq<Entry>, f: Id -> bool, g: Id -> bool, h: Id -> bool)
    requires forall e :: e in es ==> h(e.0) == (f(e.0) && g(e.0))
    ensures Filter(es, h) == Filter(Filter(es, f), g)
  {
    if es != [] {
      var n := |es| - 1;
      assert forall e :: e in es[..n] ==> e in es;
      FilterTwice(es[..n], f, g, h);
      if f(es[n].0) {
        var r := Filter(es[..n], f);
        FilterAppend(r, [es[n]], g);
        assert [es[n]][..0] == [] && Filter([], g) == [];
        assert Filter([es[n]], g) == if g(es[n].0) then [es[n]] else [];
      }
    }
  }

  /** An add or delete of an id takes it out of the live set of the segment that owns it,
      and changes no other segment's: this is what `live_segment_of` is for. */
  lemma LiveSetChange(m: Mem, op: Op, s: nat)
    requires MemInv(m) && s < |m.segments|
    ensures var m' := Apply(m, op);
            && |m'.segments| == |m'.segmentIds| == |m.segments|
            && LiveOf(m', s) == if Owns(m, m.segmentIds[s], op.id) then Filter(LiveOf(m, s), x => x != op.id)
                                else LiveOf(m, s)
  {
    var m' := Apply(m, op);
    ApplyTables(m, op);
    ApplyKeepsInv(m, op);
    var k, es := m.segmentIds[s], m.segments[s];
    forall e | e in es ensures IsLiveIn(m', k)(e.0) == (IsLiveIn(m, k)(e.0) && e.0 != op.id) {
      LiveIffOwned(m, s, e.0);
      LiveIffOwned(m', s, e.0);
    }
    if Owns(m, k, op.id) {
      FilterTwice(es, IsLiveIn(m, k), x => x != op.id, IsLiveIn(m', k));
    } else {
      forall e | e in es ensures IsLiveIn(m', k)(e.0) == IsLiveIn(m, k)(e.0) {
        LiveIffOwned(m, s, e.0);
      }
      FilterCong(es, IsLiveIn(m', k), IsLiveIn(m, k));
    }
  }

  // ---------------------------------------------------------------------------
  // Space amplification
  // ---------------------------------------------------------------------------

  datatype Amplification = Finite(ratio: real) | Infinite

  function AmplificationOf(stored: nat, live: nat): Amplification {
    if live == 0 then (if stored == 0 then Finite(1.0) else Infinite)
    else Finite(stored as real / live as real)
  }

  /** For which segments the store's `live_len` is not `None`. */
  type Reports = Segment -> bool

  function Times(q: real, n: nat): real { q * n as real }

  lemma RatioTimesLive(stored: nat, live: nat)
    requires live > 0
    ensures var a := AmplificationOf(stored, live); a.Finite? && a.ratio * live as real == stored as real
  {
    assert stored as real / live as real * live as real == stored as real;
  }

  /** The scan of `space_amplification`: stored over live, infinite when only dead data
      is left; no answer if some segment has no live count. */
  method SpaceAmplification(m: Mem, reports: Reports) returns (a: Option<Amplification>)
    requires |m.segments| == |m.segmentIds|
    ensures a.None? <==> exists i: nat :: i < |m.segments| && !reports(m.segments[i])
    ensures a.Some? ==> a.value == AmplificationOf(StoredLen(m), TotalLive(m, |m.segments|) + |m.buffer|)
  {
    var stored, live := 0, 0;
    var i := 0;
    while i < |m.segments|
      invariant 0 <= i <= |m.segments|
      invariant forall j: nat :: j < i ==> reports(m.segments[j])
      invariant stored == TotalStored(m, i) && live == TotalLive(m, i)
    {
      if !reports(m.segments[i]) { return None; }
      stored := stored + |m.segments[i]|;
      live := live + |LiveOf(m, i)|;
      i := i + 1;
    }
    stored := stored + |m.buffer|;
    live := live + |m.buffer|;
    return Some(AmplificationOf(stored, live));
  }

  lemma RatioAtLeastOne(stored: nat, live: nat)
    requires stored >= live > 0
    ensures stored as real / live as real >= 1.0
    ensures stored as real / live as real == 1.0 <==> stored == live
  {
    var q := stored as real / live as real;
    assert q * live as real == stored as real;
    TierTheorems.CancelFactor(1.0, q, live as real);
  }

  /** Amplification measures the map: times the size of the map it is what is stored. It
      is never below one, it is one exactly when nothing dead is stored, and infinite
      exactly when only dead data is. */
  lemma AmplificationOk(m: Mem, r: RefMap)
    requires MemInv(m) && Represents(m, r)
    ensures var a := AmplificationOf(StoredLen(m), TotalLive(m, |m.segments|) + |m.buffer|);
            && (a.Infinite? <==> |r| == 0 && StoredLen(m) > 0)
            && (a.Finite? ==> a.ratio >= 1.0)
            && (a == Finite(1.0) <==> StoredLen(m) == |r|)
            && (|r| > 0 ==> a.Finite? && Times(a.ratio, |r|) == StoredLen(m) as real)
  {
    LiveTotalIsSize(m, r);
    LiveAtMostStored(m, |m.segments|);
    RatioOk(StoredLen(m), TotalLive(m, |m.segments|) + |m.buffer|, |r|);
  }

  lemma RatioOk(stored: nat, live: nat, size: nat)
    requires live == size <= stored
    ensures var a := AmplificationOf(stored, live);
            && (a.Infinite? <==> size == 0 && stored > 0)
            && (a.Finite? ==> a.ratio >= 1.0)
            && (a == Finite(1.0) <==> stored == size)
            && (size > 0 ==> a.Finite? && Times(a.ratio, size) == stored as real)
  {
    if live > 0 {
      RatioAtLeastOne(stored, live);
      RatioTimesLive(stored, live);
    }
  }

  // ---------------------------------------------------------------------------
  // Full compaction leaves no dead data
  // ---------------------------------------------------------------------------

  lemma AllLiveIsWhole(m: Mem, i: nat)
    requires MemInv(m) && AllLive(m) && i < |m.segments|
    ensures LiveOf(m, i) == m.segments[i]
  {
    forall e | e in m.segments[i] ensures IsLiveIn(m, m.segmentIds[i])(e.0) == true {
      assert HasCopy(m.segments, m.segmentIds, m.segmentIds[i], e.0);
      LiveIffOwned(m, i, e.0);
    }
    FilterCong(m.segments[i], IsLiveIn(m, m.segmentIds[i]), x => true);
    FilterAll(m.segments[i]);
  }

  lemma {:induction false} AllLiveTotals(m: Mem, n: nat)
    requires MemInv(m) && AllLive(m) && n <= |m.segments|
    ensures TotalLive(m, n) == TotalStored(m, n)
  {
    if n > 0 {
      AllLiveTotals(m, n - 1);
      AllLiveIsWhole(m, n - 1);
    }
  }

  /** After `compact` exactly the map is stored. */
  lemma CompactStoresTheMap(m: Mem, r: RefMap)
    requires MemInv(m) && Represents(m, r)
    ensures StoredLen(Compact(m)) == |r|
  {
    CompactOk(m, r);
    var m' := Compact(m);
    forall k, x | HasCopy(m'.segments, m'.segmentIds, k, x) ensures x !in Dead(m'.superseded, k) {}
    AllLiveTotals(m', |m'.segments|);
    LiveTotalIsSize(m', r);
  }

  // ---------------------------------------------------------------------------
  // reclaim_tombstones
  // ---------------------------------------------------------------------------

  predicate Sparse(live: nat, total: nat, ratio: real) {
    total > 0 && live as real < ratio * total as real
  }

  /** The segment is below the live ratio; empty segments are never rewritten. */
  predicate BelowRatio(m: Mem, i: nat, ratio: real)
    requires |m.segments| == |m.segmentIds| && i < |m.segments|
  {
    Sparse(LiveCount(m, i), |m.segments[i]|, ratio)
  }

  lemma FullIsNotSparse(total: nat, ratio: real)
    requires ratio <= 1.0
    ensures !Sparse(total, total, ratio)
  {
    TierTheorems.ScaleLe(ratio, 1.0, total as real);
  }

  function Targets(m: Mem, ratio: real, n: nat): seq<nat>
    requires |m.segments| == |m.segmentIds| && n <= |m.segments|
  {
    if n == 0 then []
    else Targets(m, ratio, n - 1) + (if BelowRatio(m, n - 1, ratio) then [n - 1] else [])
  }

  /** In list order, exactly the segments with fewer live items than the ratio asks for. */
  ghost predicate TargetsAre(g: seq<nat>, m: Mem, ratio: real)
    requires |m.segments| == |m.segmentIds|
  {
    && Increasing(g)
    && forall i: nat :: i in g <==>
         i < |m.segments| && |m.segments[i]| > 0 && |LiveOf(m, i)| as real < ratio * |m.segments[i]| as real
  }

  lemma {:induction false} TargetsOk(m: Mem, ratio: real, n: nat)
    requires |m.segments| == |m.segmentIds| && n <= |m.segments|
    ensures Increasing(Targets(m, ratio, n)) && Within(Targets(m, ratio, n), n)
    ensures forall i: nat :: i in Targets(m, ratio, n) <==> i < n && BelowRatio(m, i, ratio)
  {
    if n > 0 {
      TargetsOk(m, ratio, n - 1);
      AppendTarget(Targets(m, ratio, n - 1), n - 1, BelowRatio(m, n - 1, ratio));
    }
  }

  lemma AppendTarget(g: seq<nat>, i: nat, take: bool)
    requires Increasing(g) && Within(g, i)
    ensures var g' := g + (if take then [i] else []);
            && Increasing(g') && Within(g', i + 1)
            && forall j: nat :: j in g' <==> j in g || (take && j == i)
  {
  }

  /** Reclaiming is unavailable as soon as a segment with items has no live count. */
  predicate Unavailable(m: Mem, reports: Reports) {
    exists i: nat :: i < |m.segments| && m.segments[i] != [] && !reports(m.segments[i])
  }

  /** Some segment has fewer live items than the ratio asks for, and all can be counted. */
  ghost predicate Reclaimable(m: Mem, ratio: real, reports: Reports)
    requires |m.segments| == |m.segmentIds|
  {
    && (forall i: nat :: i < |m.segments| && m.segments[i] != [] ==> reports(m.segments[i]))
    && exists i: nat :: i < |m.segments| && |m.segments[i]| > 0
                        && |LiveOf(m, i)| as real < ratio * |m.segments[i]| as real
  }

  /** The scan of `reclaim_tombstones`. */
  method FindTargets(m: Mem, ratio: real, reports: Reports) returns (r: Option<seq<nat>>)
    requires |m.segments| == |m.segmentIds|
    ensures r == if Unavailable(m, reports) then None else Some(Targets(m, ratio, |m.segments|))
    ensures r.Some? ==> TargetsAre(r.value, m, ratio)
  {
    var g := [];
    var i := 0;
    while i < |m.segments|
      invariant 0 <= i <= |m.segments| && g == Targets(m, ratio, i)
      invariant forall j: nat :: j < i && m.segments[j] != [] ==> reports(m.segments[j])
    {
      var total := |m.segments[i]|;
      if total == 0 {
        assert g + [] == g;
      } else {
        if !reports(m.segments[i]) { return None; }
        var live := |LiveOf(m, i)|;
        if Sparse(live, total, ratio) {
          g := g + [i];
        } else {
          assert g + [] == g;
        }
      }
      i := i + 1;
    }
    TargetsOk(m, ratio, |m.segments|);
    return Some(g);
  }

  function Reclaim(m: Mem, ratio: real): Mem
    requires |m.segments| == |m.segmentIds|
  {
    var m1 := Seal(m);
    var g := Targets(m1, ratio, |m1.segments|);
    TargetsOk(m1, ratio, |m1.segments|);
    if g == [] then m1 else MergeGroup(m1, g)
  }

  /** `reclaim_tombstones` seals, and then merges exactly these segments, if any. */
  lemma ReclaimMerges(m: Mem, ratio: real) returns (g: seq<nat>)
    requires |m.segments| == |m.segmentIds|
    ensures var m1 := Seal(m);
            && |m1.segments| == |m1.segmentIds| && TargetsAre(g, m1, ratio) && Within(g, |m1.segments|)
            && Reclaim(m, ratio) == if g == [] then m1 else MergeGroup(m1, g)
  {
    var m1 := Seal(m);
    g := Targets(m1, ratio, |m1.segments|);
    TargetsOk(m1, ratio, |m1.segments|);
  }

  /** A merge leaves the segments outside the group with the same live entries. */
  lemma KeptLiveOf(m: Mem, indices: seq<nat>, t: nat)
    requires MemInv(m) && Group(m, indices) && t < |KeptIndices(m, indices)|
    ensures var m' := MergeGroup(m, indices);
            && |m'.segments| == |m'.segmentIds| && t < |m'.segments|
            && m'.segments[t] == m.segments[KeptIndices(m, indices)[t]]
            && LiveOf(m', t) == LiveOf(m, KeptIndices(m, indices)[t])
  {
    var m' := MergeGroup(m, indices);
    var s := KeptIndices(m, indices)[t];
    assert KeptIndices(Alloc(m), indices) == KeptIndices(m, indices);
    KeptOutside(m, indices, t);
    assert m'.segments[t] == m.segments[s] && m'.segmentIds[t] == m.segmentIds[s];
    FilterCong(m.segments[s], IsLiveIn(m', m'.segmentIds[t]), IsLiveIn(m, m.segmentIds[s]));
  }

  /** The output of a merge is live throughout. */
  lemma OutputAllLive(m: Mem, indices: seq<nat>, r: RefMap)
    requires MemInv(m) && Group(m, indices) && Represents(m, r) && Merged(m, indices) != []
    ensures var m' := MergeGroup(m, indices);
            var t := |KeptIndices(m, indices)|;
            && |m'.segments| == |m'.segmentIds| == t + 1
            && LiveOf(m', t) == m'.segments[t]
  {
    var m' := MergeGroup(m, indices);
    var t := |KeptIndices(m, indices)|;
    MergeGroupRefines(m, indices, r);
    assert KeptIndices(Alloc(m), indices) == KeptIndices(m, indices);
    assert m'.segments[t] == Merged(m, indices) && m'.segmentIds[t] == m.nextSegId;
    forall e | e in m'.segments[t] ensures IsLiveIn(m', m'.segmentIds[t])(e.0) == true {
      assert e.0 in IdsOf(m'.segments[t]);
      assert Owns(m', m.nextSegId, e.0);
      LiveIffOwned(m', t, e.0);
    }
    FilterCong(m'.segments[t], IsLiveIn(m', m'.segmentIds[t]), x => true);
    FilterAll(m'.segments[t]);
  }

  lemma RewrittenNotSparse(m: Mem, g: seq<nat>, ratio: real, r: RefMap, i: nat)
    requires MemInv(m) && Represents(m, r) && ratio <= 1.0
    requires Group(m, g) && MemInv(MergeGroup(m, g)) && i < |MergeGroup(m, g).segments|
    requires forall s: nat :: s < |m.segments| && s !in g ==> !BelowRatio(m, s, ratio)
    ensures !BelowRatio(MergeGroup(m, g), i, ratio)
  {
    var m' := MergeGroup(m, g);
    var kept := KeptIndices(m, g);
    assert KeptIndices(Alloc(m), g) == kept;
    if i < |kept| {
      KeptLiveOf(m, g, i);
      assert kept[i] in kept;
    } else {
      OutputAllLive(m, g, r);
      FullIsNotSparse(|m'.segments[i]|, ratio);
    }
  }

  /** After `reclaim_tombstones(ratio)` with a ratio of at most one, no segment is below
      it; the map is preserved. */
  lemma ReclaimOk(m: Mem, ratio: real, r: RefMap)
    requires MemInv(m) && Represents(m, r) && ratio <= 1.0
    ensures MemInv(Reclaim(m, ratio)) && Represents(Reclaim(m, ratio), r)
    ensures forall i: nat :: i < |Reclaim(m, ratio).segments| ==> !BelowRatio(Reclaim(m, ratio), i, ratio)
  {
    SealRefines(m, r);
    var m1 := Seal(m);
    var g := Targets(m1, ratio, |m1.segments|);
    TargetsOk(m1, ratio, |m1.segments|);
    if g != [] {
      MergeGroupRefines(m1, g, r);
      forall i: nat | i < |MergeGroup(m1, g).segments| ensures !BelowRatio(MergeGroup(m1, g), i, ratio) {
        RewrittenNotSparse(m1, g, ratio, r, i);
      }
    }
  }

  lemma AboveOneIsSparse(live: nat, total: nat, ratio: real)
    requires live <= total && total > 0 && ratio > 1.0
    ensures Sparse(live, total, ratio)
  {
    var extra := (ratio - 1.0) * total as real;
    assert extra > 0.0 && ratio * total as real == total as real + extra;
  }

  lemma ReclaimShape(m: Mem, ratio: real, r: RefMap)
    requires MemInv(m) && Represents(m, r)
    ensures MemInv(Reclaim(m, ratio)) && Represents(Reclaim(m, ratio), r) && Reclaim(m, ratio).buffer == []
  {
    SealRefines(m, r);
    var m1 := Seal(m);
    var g := Targets(m1, ratio, |m1.segments|);
    TargetsOk(m1, ratio, |m1.segments|);
    if g != [] { MergeGroupRefines(m1, g, r); }
  }

  /** A store that is not empty keeps a segment with something in it. */
  lemma SomethingLeft(m: Mem, r: RefMap, x: Id) returns (s: nat)
    requires Represents(m, r) && m.buffer == [] && x in r
    ensures s < |m.segments| && m.segments[s] != []
  {
    assert Visible(m, (x, r[x]));
    s :| LiveSealed(m, s, (x, r[x]));
  }

  /** In an empty store every stored copy is dead, so whatever holds one is rewritten. */
  lemma NothingLeft(m: Mem, ratio: real)
    requires MemInv(m) && Represents(m, map[]) && ratio > 1.0
    ensures forall i: nat :: i < |Reclaim(m, ratio).segments| ==> Reclaim(m, ratio).segments[i] == []
  {
    SealRefines(m, map[]);
    var m1 := Seal(m);
    var g := Targets(m1, ratio, |m1.segments|);
    TargetsOk(m1, ratio, |m1.segments|);
    assert forall s: nat, e :: !LiveSealed(m1, s, e) by {
      forall s: nat, e ensures !LiveSealed(m1, s, e) {
        assert !Visible(m1, e);
      }
    }
    forall s: nat | s < |m1.segments| && m1.segments[s] != [] ensures s in g {
      AboveOneIsSparse(LiveCount(m1, s), |m1.segments[s]|, ratio);
    }
    if g != [] {
      assert Merged(m1, g) == [] || Merged(m1, g)[0] in Merged(m1, g);
      MergedContents(m1, g);
      KeptAreEmpty(m1, g);
    }
  }

  lemma KeptAreEmpty(m: Mem, g: seq<nat>)
    requires Group(m, g) && Merged(m, g) == []
    requires forall s: nat :: s < |m.segments| && m.segments[s] != [] ==> s in g
    ensures forall i: nat :: i < |MergeGroup(m, g).segments| ==> MergeGroup(m, g).segments[i] == []
  {
    var kept := KeptIndices(m, g);
    forall i: nat | i < |kept| ensures m.segments[kept[i]] == [] {
      assert kept[i] in kept;
    }
  }

  /** Exactly when reclaiming leaves no segment below the ratio: the ratio is at most
      one, or the store is empty. */
  lemma ReclaimExactly(m: Mem, ratio: real, r: RefMap)
    requires MemInv(m) && Represents(m, r)
    ensures var m' := Reclaim(m, ratio);
            && |m'.segments| == |m'.segmentIds|
            && ((forall i: nat :: i < |m'.segments| ==> !BelowRatio(m', i, ratio)) <==> ratio <= 1.0 || r == map[])
  {
    ReclaimShape(m, ratio, r);
    var m' := Reclaim(m, ratio);
    if ratio <= 1.0 {
      ReclaimOk(m, ratio, r);
    } else if r == map[] {
      NothingLeft(m, ratio);
    } else {
      var x :| x in r;
      var s := SomethingLeft(m', r, x);
      AboveOneIsSparse(LiveCount(m', s), |m'.segments[s]|, ratio);
      assert BelowRatio(m', s, ratio);
    }
  }

  /** One item is enough: after one add, reclaiming at ratio two leaves a segment below
      the ratio. */
  lemma ReclaimAtTwo(x: Id, a: Item)
    ensures var m' := Reclaim(Apply(EMPTY_MEM, Add(x, a)), 2.0);
            |m'.segments| == |m'.segmentIds| && exists i: nat :: i < |m'.segments| && BelowRatio(m', i, 2.0)
  {
    assert Represents(EMPTY_MEM, map[]);
    ApplyRefines(EMPTY_MEM, Add(x, a), map[]);
    ReclaimExactly(Apply(EMPTY_MEM, Add(x, a)), 2.0, map[x := a]);
    assert x in map[x := a];
  }
}
