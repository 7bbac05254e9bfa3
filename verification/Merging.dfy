/** `merge_group`: any set of segments is replaced by one holding their live copies. */
module Merging {
  import opened Base
  import opened Memory
  import opened Refinement

  function Concat(segs: seq<Segment>): Segment {
    if segs == [] then [] else Concat(segs[..|segs| - 1]) + segs[|segs| - 1]
  }

  /** The vec-backed store's merge: concatenate, keeping the live ids. */
  function MergeSegments(segs: seq<Segment>, live: Id -> bool): Segment {
    Filter(Concat(segs), live)
  }

  ghost predicate Group(m: Mem, indices: seq<nat>) {
    && |m.segments| == |m.segmentIds|
    && Within(indices, |m.segments|)
    && (forall i, j :: 0 <= i < j < |indices| ==> indices[i] != indices[j])
  }

  function IsLiveIn(m: Mem, k: nat): Id -> bool { x => CopyIsLive(m.tombstones, m.superseded, k, x) }

  function NotDeleted(m: Mem): Id -> bool { x => x !in m.tombstones }

  /** Each group member filtered on its own, with its own liveness. */
  function FilterEach(m: Mem, indices: seq<nat>): (r: seq<Segment>)
    requires |m.segments| == |m.segmentIds| && Within(indices, |m.segments|)
    ensures |r| == |indices|
    ensures forall j :: 0 <= j < |indices| ==>
              r[j] == MergeSegments([m.segments[indices[j]]], IsLiveIn(m, m.segmentIds[indices[j]]))
  {
    seq(|indices|, j requires 0 <= j < |indices| =>
          MergeSegments([m.segments[indices[j]]], IsLiveIn(m, m.segmentIds[indices[j]])))
  }

  /** The merged payload, on the two paths the source distinguishes. */
  function Merged(m: Mem, indices: seq<nat>): Segment
    requires |m.segments| == |m.segmentIds| && Within(indices, |m.segments|)
  {
    if exists g :: g in Pick(m.segmentIds, indices) && g in m.superseded then
      MergeSegments(FilterEach(m, indices), x => true)
    else
      MergeSegments(Pick(m.segments, indices), NotDeleted(m))
  }

  /** Drop the group, with its superseded copies. */
  function DropGroup(m: Mem, indices: seq<nat>): Mem
    requires |m.segments| == |m.segmentIds|
  {
    var kept := KeptIndices(m, indices);
    m.(superseded := m.superseded - GroupIds(m, indices),
       segments := Pick(m.segments, kept),
       segmentIds := Pick(m.segmentIds, kept))
  }

  function AppendSegment(m: Mem, seg: Segment, id: nat): Mem {
    m.(segments := m.segments + [seg],
       segmentIds := m.segmentIds + [id],
       owners := m.owners + map x | x in IdsOf(seg) :: id)
  }

  /** The in-memory half of `merge_group`: drop the group and append `merged` as
      segment `id`; an empty output leaves no segment behind. */
  function Replace(m: Mem, indices: seq<nat>, merged: Segment, id: nat): Mem
    requires |m.segments| == |m.segmentIds|
  {
    if merged == [] then DropGroup(m, indices) else AppendSegment(DropGroup(m, indices), merged, id)
  }

  function Swap(m: Mem, indices: seq<nat>, id: nat): Mem
    requires |m.segments| == |m.segmentIds| && Within(indices, |m.segments|)
  {
    Replace(m, indices, Merged(m, indices), id)
  }

  /** The segment ids of the group. */
  function GroupIds(m: Mem, indices: seq<nat>): set<nat> {
    set i | i in indices && i < |m.segmentIds| :: m.segmentIds[i]
  }

  function KeptIndices(m: Mem, indices: seq<nat>): (r: seq<nat>)
    ensures Increasing(r) && Within(r, |m.segments|)
    ensures forall i: nat :: i in r <==> i < |m.segments| && i !in indices
  {
    var r := Kept(|m.segments|, Indices(indices));
    assert forall i :: 0 <= i < |r| ==> r[i] in r;
    r
  }

  function Alloc(m: Mem): Mem { m.(nextSegId := m.nextSegId + 1) }

  /** A merge whose output was written: the id is allocated only for a non-empty output. */
  function MergeGroup(m: Mem, indices: seq<nat>): Mem
    requires |m.segments| == |m.segmentIds| && Within(indices, |m.segments|)
  {
    var merged := Merged(m, indices);
    if merged == [] then Replace(m, indices, [], 0)
    else Replace(Alloc(m), indices, merged, m.nextSegId)
  }

  // ---------------------------------------------------------------------------
  // The merged payload is the concatenation of the live copies, on both paths
  // ---------------------------------------------------------------------------

  function LiveOf(m: Mem, i: nat): Segment
    requires |m.segments| == |m.segmentIds| && i < |m.segments|
  {
    Filter(m.segments[i], IsLiveIn(m, m.segmentIds[i]))
  }

  function LiveParts(m: Mem, indices: seq<nat>): (r: seq<Segment>)
    requires |m.segments| == |m.segmentIds| && Within(indices, |m.segments|)
    ensures |r| == |indices|
    ensures forall j :: 0 <= j < |indices| ==> r[j] == LiveOf(m, indices[j])
  {
    seq(|indices|, j requires 0 <= j < |indices| => LiveOf(m, indices[j]))
  }

  lemma FilterLast(es: seq<Entry>, e: Entry, f: Id -> bool)
    ensures Filter(es + [e], f) == Filter(es, f) + if f(e.0) then [e] else []
  {
    var all := es + [e];
    assert all[..|all| - 1] == es && all[|all| - 1] == e;
  }

  lemma Associative(a: seq<Entry>, b: seq<Entry>, c: seq<Entry>)
    ensures (a + b) + c == a + (b + c)
  {
  }

  lemma FilterOneMore(a: seq<Entry>, b: seq<Entry>, e: Entry, more: seq<Entry>, f: Id -> bool)
    requires Filter(a + b, f) == Filter(a, f) + Filter(b, f) && more == b + [e]
    ensures Filter(a + more, f) == Filter(a, f) + Filter(more, f)
  {
    var tail := if f(e.0) then [e] else [];
    assert Filter((a + b) + [e], f) == Filter(a + b, f) + tail by { FilterLast(a + b, e, f); }
    assert Filter(b + [e], f) == Filter(b, f) + tail by { FilterLast(b, e, f); }
    Associative(a, b, [e]);
    Associative(Filter(a, f), Filter(b, f), tail);
  }

  lemma {:induction false} FilterAppend(a: seq<Entry>, b: seq<Entry>, f: Id -> bool)
    ensures Filter(a + b, f) == Filter(a, f) + Filter(b, f)
    decreases |b|
  {
    if b == [] {
      assert a + b == a && Filter(b, f) == [] && Filter(a, f) + [] == Filter(a, f);
    } else {
      var n := |b| - 1;
      FilterAppend(a, b[..n], f);
      FilterOneMore(a, b[..n], b[n], b, f);
    }
  }

  /** Filtering a concatenation is concatenating the filtered parts. */
  lemma {:induction false} FilterConcat(segs: seq<Segment>, parts: seq<Segment>, f: Id -> bool)
    requires |segs| == |parts|
    requires forall j :: 0 <= j < |segs| ==> parts[j] == Filter(segs[j], f)
    ensures Filter(Concat(segs), f) == Concat(parts)
  {
    if segs != [] {
      var n := |segs| - 1;
      FilterConcat(segs[..n], parts[..n], f);
      FilterAppend(Concat(segs[..n]), segs[n], f);
    }
  }

  lemma {:induction false} FilterAll(es: seq<Entry>)
    ensures Filter(es, x => true) == es
  {
    if es != [] {
      FilterAll(es[..|es| - 1]);
    }
  }

  lemma EachIsLive(m: Mem, indices: seq<nat>)
    requires Group(m, indices)
    ensures FilterEach(m, indices) == LiveParts(m, indices)
  {
    forall j | 0 <= j < |indices| ensures FilterEach(m, indices)[j] == LiveParts(m, indices)[j] {
      var seg := m.segments[indices[j]];
      assert Concat([seg]) == seg by { assert [seg][..0] == []; }
    }
  }

  /** Both merge paths yield the same payload: the live copies of the group. */
  lemma MergedIsLive(m: Mem, indices: seq<nat>)
    requires MemInv(m) && Group(m, indices)
    ensures Merged(m, indices) == Concat(LiveParts(m, indices))
  {
    var parts := LiveParts(m, indices);
    if exists g :: g in Pick(m.segmentIds, indices) && g in m.superseded {
      EachIsLive(m, indices);
      FilterAll(Concat(parts));
    } else {
      var segs := Pick(m.segments, indices);
      forall j | 0 <= j < |indices| ensures parts[j] == Filter(segs[j], NotDeleted(m)) {
        assert m.segmentIds[indices[j]] == Pick(m.segmentIds, indices)[j];
        FilterCong(segs[j], IsLiveIn(m, m.segmentIds[indices[j]]), NotDeleted(m));
      }
      FilterConcat(segs, parts, NotDeleted(m));
    }
  }

  lemma {:induction false} ConcatMembers(segs: seq<Segment>, e: Entry)
    ensures e in Concat(segs) <==> exists j :: 0 <= j < |segs| && e in segs[j]
  {
    if segs != [] {
      var n := |segs| - 1;
      ConcatMembers(segs[..n], e);
      assert forall j :: 0 <= j < n ==> segs[..n][j] == segs[j];
    }
  }

  lemma {:induction false} ConcatDistinct(segs: seq<Segment>)
    requires forall j :: 0 <= j < |segs| ==> DistinctIds(segs[j])
    requires forall i, j, a, b :: 0 <= i < j < |segs| && a in segs[i] && b in segs[j] ==> a.0 != b.0
    ensures DistinctIds(Concat(segs))
  {
    if segs != [] {
      var n := |segs| - 1;
      ConcatDistinct(segs[..n]);
      var c := Concat(segs[..n]);
      forall i, j | 0 <= i < |c| && 0 <= j < |segs[n]| ensures c[i].0 != segs[n][j].0 {
        ConcatMembers(segs[..n], c[i]);
      }
    }
  }

  lemma LivePart(m: Mem, indices: seq<nat>, j: nat, e: Entry)
    requires MemInv(m) && Group(m, indices) && j < |indices|
    ensures e in LiveParts(m, indices)[j] <==> LiveSealed(m, indices[j], e)
    ensures e in LiveParts(m, indices)[j] ==> Owns(m, m.segmentIds[indices[j]], e.0)
  {
    if e in m.segments[indices[j]] { LiveIffOwned(m, indices[j], e.0); }
  }

  /** No id is live twice in a group. */
  lemma PartsDistinct(m: Mem, indices: seq<nat>)
    requires MemInv(m) && Group(m, indices)
    ensures var parts := LiveParts(m, indices);
            && (forall i, j, a: Entry, b: Entry ::
                  0 <= i < j < |parts| && a in parts[i] && b in parts[j] ==> a.0 != b.0)
            && (forall j :: 0 <= j < |parts| ==> DistinctIds(parts[j]))
  {
    var parts := LiveParts(m, indices);
    forall i, j, a: Entry, b: Entry | 0 <= i < j < |parts| && a in parts[i] && b in parts[j] ensures a.0 != b.0 {
      LivePart(m, indices, i, a);
      LivePart(m, indices, j, b);
      assert m.segmentIds[indices[i]] != m.segmentIds[indices[j]];
    }
    forall j | 0 <= j < |parts| ensures DistinctIds(parts[j]) {
      FilterDistinct(m.segments[indices[j]], IsLiveIn(m, m.segmentIds[indices[j]]));
    }
  }

  /** The output holds exactly the live copies of the group, one per id. */
  lemma MergedContents(m: Mem, indices: seq<nat>)
    requires MemInv(m) && Group(m, indices)
    ensures DistinctIds(Merged(m, indices))
    ensures forall e :: e in Merged(m, indices) <==>
                        exists j :: 0 <= j < |indices| && LiveSealed(m, indices[j], e)
  {
    var parts := LiveParts(m, indices);
    MergedIsLive(m, indices);
    PartsDistinct(m, indices);
    ConcatDistinct(parts);
    forall e
      ensures e in Concat(parts) <==> exists j :: 0 <= j < |indices| && LiveSealed(m, indices[j], e)
    {
      ConcatMembers(parts, e);
      forall j | 0 <= j < |indices| ensures e in parts[j] <==> LiveSealed(m, indices[j], e) {
        LivePart(m, indices, j, e);
      }
    }
  }

  /** What the lemmas below need to know about the output of a merge. */
  ghost predicate LiveOutput(m: Mem, indices: seq<nat>, merged: Segment) {
    && |m.segments| == |m.segmentIds|
    && DistinctIds(merged)
    && (forall e :: e in merged <==> exists s: nat :: s in indices && LiveSealed(m, s, e))
    && (forall x :: x in IdsOf(merged) <==> x in m.owners && m.owners[x] in GroupIds(m, indices))
  }

  /** The output holds one copy per id, and exactly the ids owned by a group member. */
  lemma MergedIsOutput(m: Mem, indices: seq<nat>)
    requires MemInv(m) && Group(m, indices)
    ensures LiveOutput(m, indices, Merged(m, indices))
  {
    var merged := Merged(m, indices);
    MergedContents(m, indices);
    forall e ensures e in merged <==> exists s: nat :: s in indices && LiveSealed(m, s, e) {
      if s: nat :| s in indices && LiveSealed(m, s, e) {
        var j :| 0 <= j < |indices| && indices[j] == s;
        assert LiveSealed(m, indices[j], e);
      }
    }
    forall x ensures x in IdsOf(merged) <==> x in m.owners && m.owners[x] in GroupIds(m, indices) {
      if x in IdsOf(merged) {
        var e :| e in merged && e.0 == x;
        var s: nat :| s in indices && LiveSealed(m, s, e);
        LiveIffOwned(m, s, x);
      }
      if x in m.owners && m.owners[x] in GroupIds(m, indices) {
        OwnedInGroup(m, indices, x);
      }
    }
  }

  /** An id owned by a group member has its live copy in the group. */
  lemma OwnedInGroup(m: Mem, indices: seq<nat>, x: Id)
    requires MemInv(m) && x in m.owners && m.owners[x] in GroupIds(m, indices)
    ensures exists e, s: nat :: s in indices && LiveSealed(m, s, e) && e.0 == x
  {
    var s: nat :| s < |m.segments| && m.segmentIds[s] == m.owners[x] && x in IdsOf(m.segments[s]);
    var i :| i in indices && i < |m.segmentIds| && m.segmentIds[i] == m.owners[x];
    assert i == s;
    LiveIffOwned(m, s, x);
    var e :| e in m.segments[s] && e.0 == x;
    assert LiveSealed(m, s, e);
  }

  // ---------------------------------------------------------------------------
  // Replacing the group by its output preserves the store
  // ---------------------------------------------------------------------------

  lemma KeptPosition(m: Mem, indices: seq<nat>, s: nat)
    requires |m.segments| == |m.segmentIds| && s < |m.segments| && s !in indices
    ensures exists t: nat :: t < |KeptIndices(m, indices)| && KeptIndices(m, indices)[t] == s
  {
    assert s in KeptIndices(m, indices);
  }

  lemma KeptOutside(m: Mem, indices: seq<nat>, t: nat)
    requires |m.segments| == |m.segmentIds| && t < |KeptIndices(m, indices)|
    requires Increasing(m.segmentIds)
    ensures KeptIndices(m, indices)[t] !in indices
    ensures m.segmentIds[KeptIndices(m, indices)[t]] !in GroupIds(m, indices)
  {
    assert KeptIndices(m, indices)[t] in KeptIndices(m, indices);
  }

  lemma KeptCopies(m: Mem, indices: seq<nat>, k: nat, x: Id)
    requires IdsInStep(m)
    ensures var kept := KeptIndices(m, indices);
            HasCopy(Pick(m.segments, kept), Pick(m.segmentIds, kept), k, x) <==>
            HasCopy(m.segments, m.segmentIds, k, x) && k !in GroupIds(m, indices)
  {
    var kept := KeptIndices(m, indices);
    var segs, ids := Pick(m.segments, kept), Pick(m.segmentIds, kept);
    if HasCopy(segs, ids, k, x) {
      var t: nat :| t < |segs| && ids[t] == k && x in IdsOf(segs[t]);
      KeptOutside(m, indices, t);
      assert m.segmentIds[kept[t]] == k && x in IdsOf(m.segments[kept[t]]);
    }
    if HasCopy(m.segments, m.segmentIds, k, x) && k !in GroupIds(m, indices) {
      var s: nat :| s < |m.segments| && m.segmentIds[s] == k && x in IdsOf(m.segments[s]);
      KeptPosition(m, indices, s);
      var t: nat :| t < |kept| && kept[t] == s;
      assert ids[t] == k && x in IdsOf(segs[t]);
    }
  }

  /** Which copies exist once the group is gone and the output is appended. */
  lemma ReplaceCopies(m: Mem, indices: seq<nat>, merged: Segment, id: nat)
    requires IdsInStep(m)
    ensures var m' := Replace(m, indices, merged, id);
            forall k, x :: HasCopy(m'.segments, m'.segmentIds, k, x) <==>
                           || (HasCopy(m.segments, m.segmentIds, k, x) && k !in GroupIds(m, indices))
                           || (k == id && x in IdsOf(merged))
  {
    var kept := KeptIndices(m, indices);
    var segs, ids := Pick(m.segments, kept), Pick(m.segmentIds, kept);
    forall k, x
      ensures HasCopy(segs, ids, k, x) <==> HasCopy(m.segments, m.segmentIds, k, x) && k !in GroupIds(m, indices)
    {
      KeptCopies(m, indices, k, x);
    }
    if merged != [] {
      HasCopyAppend(segs, ids, merged, id);
    }
  }

  ghost predicate FreshId(m: Mem, id: nat) {
    id < m.nextSegId && forall i :: 0 <= i < |m.segmentIds| ==> m.segmentIds[i] < id
  }

  lemma KeptId(m: Mem, indices: seq<nat>, k: nat)
    requires |m.segments| == |m.segmentIds| && k in m.segmentIds && k !in GroupIds(m, indices)
    ensures k in Pick(m.segmentIds, KeptIndices(m, indices))
  {
    var s: nat :| s < |m.segmentIds| && m.segmentIds[s] == k;
    KeptPosition(m, indices, s);
    var t: nat :| t < |KeptIndices(m, indices)| && KeptIndices(m, indices)[t] == s;
    assert Pick(m.segmentIds, KeptIndices(m, indices))[t] == k;
  }

  /** Redirecting the owners of `moved` from `group` to the new segment `id` keeps both
      tables exact. */
  lemma Retrack(m: Mem, m': Mem, group: set<nat>, moved: set<Id>, id: nat)
    requires CopiesTracked(m)
    requires moved != {} ==> forall k, x :: HasCopy(m.segments, m.segmentIds, k, x) ==> k != id
    requires forall x :: x in moved <==> x in m.owners && m.owners[x] in group
    requires forall k, x :: HasCopy(m'.segments, m'.segmentIds, k, x) <==>
                            (HasCopy(m.segments, m.segmentIds, k, x) && k !in group) || (k == id && x in moved)
    requires m'.superseded == m.superseded - group
    requires forall k :: k in m'.superseded ==> k in m'.segmentIds
    requires m'.owners.Keys == m.owners.Keys
    requires forall x :: x in m.owners ==> m'.owners[x] == if x in moved then id else m.owners[x]
    ensures CopiesTracked(m')
  {
    forall k, x | HasCopy(m'.segments, m'.segmentIds, k, x)
      ensures Owns(m', k, x) <==> x !in Dead(m'.superseded, k)
    {
      if x in moved && k == id {
        assert !HasCopy(m.segments, m.segmentIds, k, x);
        assert x !in Dead(m.superseded, k);
      } else {
        assert Owns(m, k, x) <==> x !in Dead(m.superseded, k);
      }
    }
  }

  /** `owners` is redirected exactly for the ids of the output. */
  lemma ReplaceOwners(m: Mem, indices: seq<nat>, merged: Segment, id: nat)
    requires LiveOutput(m, indices, merged)
    ensures var m' := Replace(m, indices, merged, id);
            && m'.owners.Keys == m.owners.Keys
            && (forall x :: x in m.owners ==> m'.owners[x] == if x in IdsOf(merged) then id else m.owners[x])
            && m'.superseded == m.superseded - GroupIds(m, indices)
  {
    if merged == [] { assert IdsOf(merged) == {}; }
  }

  lemma ReplaceTracked(m: Mem, indices: seq<nat>, merged: Segment, id: nat)
    requires MemInv(m) && LiveOutput(m, indices, merged) && (merged != [] ==> FreshId(m, id))
    ensures CopiesTracked(Replace(m, indices, merged, id))
  {
    var m' := Replace(m, indices, merged, id);
    var group := GroupIds(m, indices);
    ReplaceCopies(m, indices, merged, id);
    ReplaceOwners(m, indices, merged, id);
    forall k | k in m'.superseded ensures k in m'.segmentIds {
      KeptId(m, indices, k);
    }
    assert IdsOf(merged) != {} ==> merged != [];
    Retrack(m, m', group, IdsOf(merged), id);
  }

  lemma ReplaceInv(m: Mem, indices: seq<nat>, merged: Segment, id: nat)
    requires MemInv(m) && LiveOutput(m, indices, merged) && (merged != [] ==> FreshId(m, id))
    ensures MemInv(Replace(m, indices, merged, id))
  {
    var m' := Replace(m, indices, merged, id);
    ReplaceTracked(m, indices, merged, id);
    ReplaceOwners(m, indices, merged, id);
    assert IdsInStep(m');
  }

  /** A segment outside the group keeps its contents and its live copies. */
  lemma KeptLive(m: Mem, indices: seq<nat>, merged: Segment, id: nat, t: nat, e: Entry)
    requires IdsInStep(m) && t < |KeptIndices(m, indices)|
    ensures |Replace(m, indices, merged, id).segments| == |Replace(m, indices, merged, id).segmentIds|
    ensures LiveSealed(Replace(m, indices, merged, id), t, e) <==> LiveSealed(m, KeptIndices(m, indices)[t], e)
  {
    var m' := Replace(m, indices, merged, id);
    var s := KeptIndices(m, indices)[t];
    KeptOutside(m, indices, t);
    assert m'.segments[t] == m.segments[s] && m'.segmentIds[t] == m.segmentIds[s];
    assert m.segmentIds[s] in m'.superseded <==> m.segmentIds[s] in m.superseded;
  }

  lemma OutputLive(m: Mem, indices: seq<nat>, merged: Segment, id: nat, e: Entry)
    requires MemInv(m) && LiveOutput(m, indices, merged) && e in merged
    requires MemInv(Replace(m, indices, merged, id))
    ensures LiveSealed(Replace(m, indices, merged, id), |KeptIndices(m, indices)|, e)
  {
    var m' := Replace(m, indices, merged, id);
    var n := |KeptIndices(m, indices)|;
    assert m'.segments[n] == merged && m'.segmentIds[n] == id;
    assert e.0 in IdsOf(merged) && Owns(m', id, e.0);
    LiveIffOwned(m', n, e.0);
  }

  lemma ReplaceVisible(m: Mem, indices: seq<nat>, merged: Segment, id: nat, e: Entry)
    requires MemInv(m) && LiveOutput(m, indices, merged)
    requires MemInv(Replace(m, indices, merged, id))
    ensures Visible(Replace(m, indices, merged, id), e) <==> Visible(m, e)
  {
    var m' := Replace(m, indices, merged, id);
    var kept := KeptIndices(m, indices);
    assert m'.buffer == m.buffer;
    if s: nat :| LiveSealed(m, s, e) {
      if s in indices {
        OutputLive(m, indices, merged, id, e);
      } else {
        KeptPosition(m, indices, s);
        var t: nat :| t < |kept| && kept[t] == s;
        KeptLive(m, indices, merged, id, t, e);
      }
    }
    if t: nat :| LiveSealed(m', t, e) {
      if t < |kept| {
        KeptLive(m, indices, merged, id, t, e);
      } else {
        assert m'.segments[t] == merged;
      }
    }
  }

  /** Merging any set of distinct segments preserves the map, wherever the live and
      the stale copies of an id lie. */
  lemma SwapRefines(m: Mem, indices: seq<nat>, id: nat, r: RefMap)
    requires MemInv(m) && Group(m, indices) && Represents(m, r)
    requires Merged(m, indices) != [] ==> FreshId(m, id)
    ensures MemInv(Swap(m, indices, id)) && Represents(Swap(m, indices, id), r)
  {
    var merged := Merged(m, indices);
    MergedIsOutput(m, indices);
    ReplaceInv(m, indices, merged, id);
    forall e ensures Visible(Swap(m, indices, id), e) <==> Visible(m, e) {
      ReplaceVisible(m, indices, merged, id, e);
    }
  }

  /** Allocating an id changes nothing a reader sees. */
  lemma AllocRefines(m: Mem, r: RefMap)
    requires MemInv(m) && Represents(m, r)
    ensures MemInv(Alloc(m)) && Represents(Alloc(m), r)
  {
    var m1 := Alloc(m);
    TrackingByTables(m, m1);
    forall e ensures Visible(m1, e) <==> Visible(m, e) {
      assert forall s: nat :: LiveSealed(m1, s, e) <==> LiveSealed(m, s, e);
    }
  }

  /** `merge_group` whose file write succeeded: the map is preserved, and exactly the
      ids of the output change owner. */
  lemma MergeGroupRefines(m: Mem, indices: seq<nat>, r: RefMap)
    requires MemInv(m) && Group(m, indices) && Represents(m, r)
    ensures MemInv(MergeGroup(m, indices)) && Represents(MergeGroup(m, indices), r)
    ensures MergeGroup(m, indices) ==
            if Merged(m, indices) == [] then Swap(m, indices, 0) else Swap(Alloc(m), indices, m.nextSegId)
  {
    MergedAlloc(m, indices);
    if Merged(m, indices) == [] {
      SwapRefines(m, indices, 0, r);
    } else {
      AllocRefines(m, r);
      SwapRefines(Alloc(m), indices, m.nextSegId, r);
    }
  }

  /** Allocating the id does not change what the merge produces. */
  lemma MergedAlloc(m: Mem, indices: seq<nat>)
    requires MemInv(m) && Group(m, indices)
    ensures Merged(Alloc(m), indices) == Merged(m, indices)
  {
    TrackingByTables(m, Alloc(m));
    MergedIsLive(m, indices);
    MergedIsLive(Alloc(m), indices);
    forall j | 0 <= j < |indices|
      ensures LiveParts(Alloc(m), indices)[j] == LiveParts(m, indices)[j]
    {
      FilterCong(m.segments[indices[j]], IsLiveIn(Alloc(m), m.segmentIds[indices[j]]),
                 IsLiveIn(m, m.segmentIds[indices[j]]));
    }
    assert LiveParts(Alloc(m), indices) == LiveParts(m, indices);
  }
}
