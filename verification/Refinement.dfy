/** Applying an operation refines the reference map step; sealing leaves the map alone. */
module Refinement {
  import opened Base
  import opened Memory

  /** Removing `id` from the owners and marking its copy keeps both tables exact. */
  lemma SupersedeKeeps(m: Mem, id: Id)
    requires CopiesTracked(m)
    ensures CopiesTracked(Supersede(m, id)) && id !in Supersede(m, id).owners
  {
    if id in m.owners {
      var m' := Supersede(m, id);
      assert HasCopy(m.segments, m.segmentIds, m.owners[id], id);
      forall k, x | x in Dead(m'.superseded, k) ensures HasCopy(m.segments, m.segmentIds, k, x) {
        assert x in Dead(m.superseded, k) || (k == m.owners[id] && x == id);
      }
      forall k, x | HasCopy(m.segments, m.segmentIds, k, x)
        ensures Owns(m', k, x) <==> x !in Dead(m'.superseded, k)
      {
        assert Owns(m, k, x) <==> x !in Dead(m.superseded, k);
      }
    }
  }

  /** Dropping the buffered copy of an id leaves the other buffered ids. */
  lemma DropIdKeeps(es: seq<Entry>, id: Id)
    requires DistinctIds(es)
    ensures DistinctIds(DropId(es, id)) && IdsOf(DropId(es, id)) == IdsOf(es) - {id}
    ensures forall e :: e in DropId(es, id) <==> e in es && e.0 != id
  {
    FilterDistinct(es, x => x != id);
    forall x | x in IdsOf(es) - {id} ensures x in IdsOf(DropId(es, id)) {
      var e :| e in es && e.0 == x;
      assert e in DropId(es, id);
    }
  }

  lemma DropAbsent(es: seq<Entry>, id: Id)
    requires id !in IdsOf(es)
    ensures forall e :: e in es ==> e.0 != id
  {
    forall e | e in es ensures e.0 != id { assert e.0 in IdsOf(es); }
  }

  /** The buffer after an add holds the old copies of other ids, then the new one. */
  lemma ApplyBuffer(m: Mem, op: Op)
    requires MemInv(m)
    ensures var b := Apply(m, op).buffer;
            && DistinctIds(b)
            && (forall e :: e in b <==> (e in m.buffer && e.0 != op.id) || (op.Add? && e == (op.id, op.item)))
            && IdsOf(b) == Apply(m, op).bufferIds
            && Apply(m, op).bufferIds == if op.Add? then m.bufferIds + {op.id} else m.bufferIds - {op.id}
  {
    DropIdKeeps(m.buffer, op.id);
    var b := Apply(m, op).buffer;
    var kept := if op.id in m.bufferIds then DropId(m.buffer, op.id) else m.buffer;
    if op.id !in m.bufferIds { DropAbsent(m.buffer, op.id); }
    assert IdsOf(kept) == m.bufferIds - {op.id};
    if op.Add? {
      assert b == kept + [(op.id, op.item)];
      forall i | 0 <= i < |kept| ensures kept[i].0 != op.id { assert kept[i] in kept; }
      assert IdsOf(b) == IdsOf(kept) + {op.id} by {
        forall x | x in IdsOf(kept) + {op.id} ensures x in IdsOf(b) {
          if x == op.id { assert (op.id, op.item) in b; }
          else { var e :| e in kept && e.0 == x; assert e in b; }
        }
      }
    }
  }

  /** Apart from the buffer and the tombstones, an operation only supersedes. */
  lemma ApplyTables(m: Mem, op: Op)
    ensures var m', m1 := Apply(m, op), Supersede(m, op.id);
            && m'.owners == m1.owners == m.owners - {op.id}
            && m'.superseded == m1.superseded
            && m'.segments == m.segments && m'.segmentIds == m.segmentIds && m'.nextSegId == m.nextSegId
            && m'.tombstones == if op.Add? then m.tombstones - {op.id} else m.tombstones + {op.id}
  {
  }

  lemma TrackingByTables(a: Mem, b: Mem)
    requires CopiesTracked(a)
    requires a.segments == b.segments && a.segmentIds == b.segmentIds
    requires a.owners == b.owners && a.superseded == b.superseded
    ensures CopiesTracked(b)
  {
    forall k, x | HasCopy(b.segments, b.segmentIds, k, x)
      ensures Owns(b, k, x) <==> x !in Dead(b.superseded, k)
    {
      assert Owns(a, k, x) <==> x !in Dead(a.superseded, k);
    }
  }

  lemma ApplyKeepsInv(m: Mem, op: Op)
    requires MemInv(m)
    ensures MemInv(Apply(m, op))
  {
    ApplyTables(m, op);
    ApplyBuffer(m, op);
    SupersedeKeeps(m, op.id);
    TrackingByTables(Supersede(m, op.id), Apply(m, op));
  }

  /** Last write wins: after an operation the visible entries are the reference step. */
  lemma ApplyRefines(m: Mem, op: Op, r: RefMap)
    requires MemInv(m) && Represents(m, r)
    ensures MemInv(Apply(m, op)) && Represents(Apply(m, op), Step(r, op))
  {
    var m' := Apply(m, op);
    var r' := Step(r, op);
    ApplyKeepsInv(m, op);
    ApplyBuffer(m, op);
    forall e ensures Visible(m', e) <==> e.0 in r' && r'[e.0] == e.1 {
      if e.0 == op.id {
        if Visible(m', e) && e !in m'.buffer {
          var s: nat :| LiveSealed(m', s, e);
          LiveIffOwned(m', s, e.0);
        }
        assert Visible(m', e) <==> op.Add? && e.1 == op.item;
      } else {
        SealedElsewhere(m, op, e);
        assert Visible(m, e) <==> e.0 in r && r[e.0] == e.1;
      }
    }
  }

  /** An operation leaves the liveness of every other id's sealed copies alone. */
  lemma SealedElsewhere(m: Mem, op: Op, e: Entry)
    requires MemInv(m) && MemInv(Apply(m, op)) && e.0 != op.id
    ensures forall s: nat :: LiveSealed(Apply(m, op), s, e) <==> LiveSealed(m, s, e)
  {
    ApplyTables(m, op);
    OwnedElsewhere(m, Apply(m, op), op.id, e);
  }

  lemma OwnedElsewhere(m: Mem, m': Mem, id: Id, e: Entry)
    requires MemInv(m) && MemInv(m') && m'.segments == m.segments && m'.segmentIds == m.segmentIds
    requires m'.owners == m.owners - {id} && e.0 != id
    ensures forall s: nat :: LiveSealed(m', s, e) <==> LiveSealed(m, s, e)
  {
    forall s: nat ensures LiveSealed(m', s, e) <==> LiveSealed(m, s, e) {
      if s < |m.segments| && e in m.segments[s] {
        LiveIffOwned(m, s, e.0);
        LiveIffOwned(m', s, e.0);
      }
    }
  }

  /** Appending a segment under a new id adds exactly its copies. */
  lemma HasCopyAppend(segs: seq<Segment>, ids: seq<nat>, seg: Segment, id: nat)
    requires |segs| == |ids|
    ensures forall k, x :: HasCopy(segs + [seg], ids + [id], k, x) <==>
                           HasCopy(segs, ids, k, x) || (k == id && x in IdsOf(seg))
  {
    var segs', ids' := segs + [seg], ids + [id];
    forall k, x
      ensures HasCopy(segs', ids', k, x) <==> HasCopy(segs, ids, k, x) || (k == id && x in IdsOf(seg))
    {
      if HasCopy(segs, ids, k, x) {
        var s: nat :| s < |segs| && ids[s] == k && x in IdsOf(segs[s]);
        assert ids'[s] == k && x in IdsOf(segs'[s]);
      }
      if k == id && x in IdsOf(seg) {
        assert ids'[|ids|] == k && x in IdsOf(segs'[|ids|]);
      }
      if HasCopy(segs', ids', k, x) {
        var s: nat :| s < |segs'| && ids'[s] == k && x in IdsOf(segs'[s]);
        if s < |segs| { assert ids[s] == k && x in IdsOf(segs[s]); }
      }
    }
  }

  lemma HasCopyBelow(m: Mem, k: nat, x: Id)
    requires IdsInStep(m) && HasCopy(m.segments, m.segmentIds, k, x)
    ensures k < m.nextSegId
  {
  }

  lemma SealKeepsOrder(m: Mem)
    requires IdsInStep(m)
    ensures IdsInStep(Seal(m))
  {
  }

  lemma SealKeepsTracking(m: Mem)
    requires MemInv(m) && m.buffer != []
    ensures CopiesTracked(Seal(m))
  {
    var m' := Seal(m);
    HasCopyAppend(m.segments, m.segmentIds, m.buffer, m.nextSegId);
    forall k, x | HasCopy(m'.segments, m'.segmentIds, k, x)
      ensures Owns(m', k, x) <==> x !in Dead(m'.superseded, k)
    {
      if HasCopy(m.segments, m.segmentIds, k, x) {
        HasCopyBelow(m, k, x);
        assert Owns(m, k, x) <==> x !in Dead(m.superseded, k);
      } else {
        assert k == m.nextSegId;
        assert k !in m.segmentIds;
      }
    }
  }

  lemma SealInv(m: Mem)
    requires MemInv(m)
    ensures MemInv(Seal(m))
  {
    SealKeepsOrder(m);
    if m.buffer != [] { SealKeepsTracking(m); }
  }

  /** Sealing moves the buffered copies without changing what is visible. */
  lemma SealRefines(m: Mem, r: RefMap)
    requires MemInv(m) && Represents(m, r)
    ensures MemInv(Seal(m)) && Represents(Seal(m), r)
  {
    SealInv(m);
    if m.buffer != [] {
      var m' := Seal(m);
      var n := |m.segments|;
      forall e ensures Visible(m', e) <==> Visible(m, e) {
        if Visible(m, e) {
          if e in m.buffer {
            assert e.0 in IdsOf(m'.segments[n]);
            assert LiveSealed(m', n, e);
          } else {
            var s: nat :| LiveSealed(m, s, e);
            assert LiveSealed(m', s, e);
          }
        }
        if Visible(m', e) {
          var s: nat :| LiveSealed(m', s, e);
          if s < n { assert LiveSealed(m, s, e); }
        }
      }
    }
  }

  lemma ApplySealRefines(m: Mem, op: Op, threshold: nat, r: RefMap)
    requires MemInv(m) && Represents(m, r)
    ensures MemInv(ApplySeal(m, op, threshold)) && Represents(ApplySeal(m, op, threshold), Step(r, op))
    ensures ApplySeal(m, op, threshold).nextSegId >= m.nextSegId
  {
    ApplyRefines(m, op, r);
    SealRefines(Apply(m, op), Step(r, op));
  }

  /** Replaying a log refines folding its operations into the map. */
  lemma {:induction false} ReplayRefines(m: Mem, ops: seq<Op>, threshold: nat, r: RefMap)
    requires MemInv(m) && Represents(m, r)
    ensures MemInv(Replay(m, ops, threshold)) && Represents(Replay(m, ops, threshold), Fold(r, ops))
    ensures Replay(m, ops, threshold).nextSegId >= m.nextSegId
    decreases |ops|
  {
    if ops != [] {
      var n := |ops| - 1;
      ReplayRefines(m, ops[..n], threshold, r);
      ApplySealRefines(Replay(m, ops[..n], threshold), ops[n], threshold, Fold(r, ops[..n]));
    }
  }
}
