/** Opening a store: rebuild which segment owns each id, then replay the log. */
module Recovery {
  import opened Base
  import opened Memory
  import opened Refinement

  /** The two tables `open` rebuilds while it scans the loaded segments. */
  datatype Tables = Tables(owners: map<Id, nat>, superseded: map<nat, set<Id>>)

  /** One scanned copy. `None` is the refusal of two live copies in one segment. */
  function ClaimCopy(t: Tables, tombstones: set<Id>, seg: nat, id: Id): Option<Tables> {
    if !CopyIsLive(tombstones, t.superseded, seg, id) then Some(t)
    else if id in t.owners then
      var older := t.owners[id];
      if older == seg then None
      else Some(Tables(t.owners[id := seg], t.superseded[older := Dead(t.superseded, older) + {id}]))
    else Some(Tables(t.owners[id := seg], t.superseded))
  }

  function ClaimSegment(t: Tables, tombstones: set<Id>, seg: nat, es: seq<Entry>): Option<Tables>
    decreases |es|
  {
    if es == [] then Some(t)
    else
      match ClaimCopy(t, tombstones, seg, es[0].0)
      case None => None
      case Some(t') => ClaimSegment(t', tombstones, seg, es[1..])
  }

  function ClaimAll(t: Tables, tombstones: set<Id>, ids: seq<nat>, segments: seq<Segment>): Option<Tables>
    requires |ids| == |segments|
    decreases |ids|
  {
    if ids == [] then Some(t)
    else
      match ClaimSegment(t, tombstones, ids[0], segments[0])
      case None => None
      case Some(t') => ClaimAll(t', tombstones, ids[1..], segments[1..])
  }

  /** The nested scan of `open_with_options`. */
  method RebuildOwners(tombstones: set<Id>, superseded: map<nat, set<Id>>, ids: seq<nat>, segments: seq<Segment>)
    returns (r: Option<Tables>)
    requires |ids| == |segments|
    ensures r == ClaimAll(Tables(map[], superseded), tombstones, ids, segments)
  {
    var t := Tables(map[], superseded);
    var s := 0;
    while s < |ids|
      invariant 0 <= s <= |ids|
      invariant ClaimAll(Tables(map[], superseded), tombstones, ids, segments)
             == ClaimAll(t, tombstones, ids[s..], segments[s..])
    {
      var es := segments[s];
      ghost var t0 := t;
      var p := 0;
      while p < |es|
        invariant 0 <= p <= |es|
        invariant ClaimSegment(t0, tombstones, ids[s], es) == ClaimSegment(t, tombstones, ids[s], es[p..])
      {
        var id := es[p].0;
        if CopyIsLive(tombstones, t.superseded, ids[s], id) {
          if id in t.owners {
            var older := t.owners[id];
            if older == ids[s] { return None; }
            t := Tables(t.owners[id := ids[s]], t.superseded[older := Dead(t.superseded, older) + {id}]);
          } else {
            t := Tables(t.owners[id := ids[s]], t.superseded);
          }
        }
        assert es[p..][1..] == es[p + 1..];
        p := p + 1;
      }
      assert ids[s..][1..] == ids[s + 1..] && segments[s..][1..] == segments[s + 1..];
      s := s + 1;
    }
    return Some(t);
  }

  // ---------------------------------------------------------------------------
  // The scan rebuilds exactly the tables the writer had
  // ---------------------------------------------------------------------------

  /** The owners found after `s` segments and `p` entries of the next. */
  function Scanned(m: Mem, s: nat, p: nat): map<Id, nat>
    requires |m.segments| == |m.segmentIds| && s < |m.segments| && p <= |m.segments[s]|
  {
    map x | x in m.owners && (m.owners[x] < m.segmentIds[s]
              || (m.owners[x] == m.segmentIds[s] && x in IdsOf(m.segments[s][..p]))) :: m.owners[x]
  }

  lemma {:induction false} SegmentScan(m: Mem, s: nat, p: nat)
    requires MemInv(m) && s < |m.segments| && p <= |m.segments[s]|
    ensures ClaimSegment(Tables(Scanned(m, s, p), m.superseded), m.tombstones, m.segmentIds[s], m.segments[s][p..])
         == Some(Tables(Scanned(m, s, |m.segments[s]|), m.superseded))
    decreases |m.segments[s]| - p
  {
    var es, k := m.segments[s], m.segmentIds[s];
    if p < |es| {
      var x := es[p].0;
      assert es[..p + 1] == es[..p] + [es[p]];
      assert x in IdsOf(es) by { assert es[p] in es; }
      LiveIffOwned(m, s, x);
      assert x !in IdsOf(es[..p]);
      assert forall y :: y in IdsOf(es[..p + 1]) <==> y in IdsOf(es[..p]) || y == x;
      var next := Scanned(m, s, p + 1);
      assert next == if Owns(m, k, x) then Scanned(m, s, p)[x := k] else Scanned(m, s, p);
      assert es[p..][1..] == es[p + 1..];
      SegmentScan(m, s, p + 1);
    }
  }

  /** Owners name segments that exist and hold a copy. */
  lemma OwnerPosition(m: Mem, x: Id)
    requires MemInv(m) && x in m.owners
    ensures exists t: nat :: t < |m.segmentIds| && m.segmentIds[t] == m.owners[x] && x in IdsOf(m.segments[t])
  {
    assert HasCopy(m.segments, m.segmentIds, m.owners[x], x);
  }

  /** A fully scanned segment leaves what the next one starts from. */
  lemma ScannedNext(m: Mem, s: nat)
    requires MemInv(m) && s < |m.segments|
    ensures s + 1 < |m.segments| ==> Scanned(m, s, |m.segments[s]|) == Scanned(m, s + 1, 0)
    ensures s + 1 == |m.segments| ==> Scanned(m, s, |m.segments[s]|) == m.owners
  {
    var es := m.segments[s];
    assert es[..|es|] == es;
    assert s + 1 < |m.segments| ==> IdsOf(m.segments[s + 1][..0]) == {};
    forall x | x in m.owners
      ensures x in Scanned(m, s, |es|) <==> m.owners[x] <= m.segmentIds[s]
      ensures s + 1 < |m.segments| ==> (x in Scanned(m, s + 1, 0) <==> m.owners[x] <= m.segmentIds[s])
      ensures s + 1 == |m.segments| ==> m.owners[x] <= m.segmentIds[s]
    {
      OwnerPosition(m, x);
    }
  }

  lemma {:induction false} StoreScan(m: Mem, s: nat)
    requires MemInv(m) && s < |m.segments|
    ensures ClaimAll(Tables(Scanned(m, s, 0), m.superseded), m.tombstones, m.segmentIds[s..], m.segments[s..])
         == Some(Tables(m.owners, m.superseded))
    decreases |m.segments| - s
  {
    var es := m.segments[s];
    var ids, segs := m.segmentIds[s..], m.segments[s..];
    SegmentScan(m, s, 0);
    assert es[0..] == es;
    ScannedNext(m, s);
    assert ids[1..] == m.segmentIds[s + 1..] && segs[1..] == m.segments[s + 1..];
    assert ids[0] == m.segmentIds[s] && segs[0] == es;
    var t' := Tables(Scanned(m, s, |es|), m.superseded);
    assert ClaimAll(Tables(Scanned(m, s, 0), m.superseded), m.tombstones, ids, segs)
        == ClaimAll(t', m.tombstones, ids[1..], segs[1..]);
    if s + 1 < |m.segments| {
      StoreScan(m, s + 1);
    }
  }

  /** Scanning the segments of a consistent store never refuses, and finds exactly its
      `owners` without touching `superseded`. */
  lemma RebuildExact(m: Mem)
    requires MemInv(m)
    ensures ClaimAll(Tables(map[], m.superseded), m.tombstones, m.segmentIds, m.segments)
         == Some(Tables(m.owners, m.superseded))
  {
    forall x | x in m.owners ensures |m.segments| > 0 && m.owners[x] >= m.segmentIds[0] {
      assert HasCopy(m.segments, m.segmentIds, m.owners[x], x);
    }
    if |m.segments| > 0 {
      assert Scanned(m, 0, 0) == map[];
      assert m.segmentIds[0..] == m.segmentIds && m.segments[0..] == m.segments;
      StoreScan(m, 0);
    } else {
      assert m.owners == map[];
    }
  }

  // ---------------------------------------------------------------------------
  // Exact replay
  // ---------------------------------------------------------------------------

  /** What a live `add` or `delete` does to memory with auto-compaction off: only an
      add checks the threshold. */
  function LiveWrite(m: Mem, op: Op, threshold: nat): Mem {
    if op.Add? then ApplySeal(m, op, threshold) else Apply(m, op)
  }

  function LiveRun(m: Mem, ops: seq<Op>, threshold: nat): Mem {
    if ops == [] then m
    else LiveWrite(LiveRun(m, ops[..|ops| - 1], threshold), ops[|ops| - 1], threshold)
  }

  /** Replay checks the threshold after every record, a live delete does not; from an
      empty buffer the two still reach the identical state, field by field. */
  lemma {:induction false} ReplayIsLiveRun(m: Mem, ops: seq<Op>, threshold: nat)
    requires MemInv(m) && |m.buffer| < Max(1, threshold)
    ensures Replay(m, ops, threshold) == LiveRun(m, ops, threshold)
    ensures MemInv(Replay(m, ops, threshold)) && |Replay(m, ops, threshold).buffer| < Max(1, threshold)
    decreases |ops|
  {
    if ops != [] {
      var n := |ops| - 1;
      ReplayIsLiveRun(m, ops[..n], threshold);
      var m1 := Replay(m, ops[..n], threshold);
      ApplyKeepsInv(m1, ops[n]);
      SealInv(Apply(m1, ops[n]));
      if ops[n].Delete? && threshold == 0 {
        assert Apply(m1, ops[n]).buffer == [];
      }
    }
  }

  lemma BufferGrows(m: Mem, op: Op)
    ensures |Apply(m, op).buffer| <= |m.buffer| + 1 && (op.Add? ==> Apply(m, op).buffer != [])
    ensures op.Delete? ==> |Apply(m, op).buffer| <= |m.buffer|
  {
  }

  /** Without auto-compaction a write seals the buffer exactly when it is full: the new
      segment is the whole buffer, as large as the threshold, and nothing else changes. */
  lemma SealsWhenFull(m: Mem, op: Op, threshold: nat)
    requires |m.buffer| < Max(1, threshold) && |m.segments| == |m.segmentIds|
    ensures var full, m', b := Max(1, threshold), LiveWrite(m, op, threshold), Apply(m, op).buffer;
            && |m'.buffer| < full
            && if op.Add? && |b| == full
               then m'.segments == m.segments + [b] && m'.segmentIds == m.segmentIds + [m.nextSegId]
               else m'.segments == m.segments && m'.segmentIds == m.segmentIds && m'.buffer == b
  {
    BufferGrows(m, op);
    ApplyTables(m, op);
  }

  /** So over every run of writes the buffer never reaches the threshold, and each segment
      that the run adds holds exactly that many items. */
  lemma {:induction false} RunSealsWhenFull(m: Mem, ops: seq<Op>, threshold: nat)
    requires |m.buffer| < Max(1, threshold) && |m.segments| == |m.segmentIds|
    ensures var m' := LiveRun(m, ops, threshold);
            && |m'.buffer| < Max(1, threshold) && |m'.segments| == |m'.segmentIds|
            && m.segments <= m'.segments && m.segmentIds <= m'.segmentIds
            && forall i :: |m.segments| <= i < |m'.segments| ==> |m'.segments[i]| == Max(1, threshold)
    decreases |ops|
  {
    if ops != [] {
      var n := |ops| - 1;
      RunSealsWhenFull(m, ops[..n], threshold);
      SealsWhenFull(LiveRun(m, ops[..n], threshold), ops[n], threshold);
    }
  }
}
