/** The writer's in-memory state and the two steps that live writes and log replay
    share: applying an operation and sealing the buffer. */
module Memory {
  import opened Base

  /** The in-memory fields of the store, for a store whose segments list their ids. */
  datatype Mem = Mem(
    buffer: seq<Entry>,
    segments: seq<Segment>,
    segmentIds: seq<nat>,
    tombstones: set<Id>,
    bufferIds: set<Id>,
    superseded: map<nat, set<Id>>,
    owners: map<Id, nat>,
    nextSegId: nat)

  const EMPTY_MEM := Mem([], [], [], {}, {}, map[], map[], 0)

  /** Ids whose copy in segment `seg` was superseded. */
  function Dead(superseded: map<nat, set<Id>>, seg: nat): set<Id> {
    if seg in superseded then superseded[seg] else {}
  }

  predicate CopyIsLive(tombstones: set<Id>, superseded: map<nat, set<Id>>, seg: nat, id: Id) {
    id !in tombstones && !(seg in superseded && id in superseded[seg])
  }

  /** `supersede_sealed_copy`: mark the live sealed copy of `id`, if there is one. */
  function Supersede(m: Mem, id: Id): Mem {
    if id in m.owners then
      var seg := m.owners[id];
      m.(owners := m.owners - {id},
         superseded := m.superseded[seg := Dead(m.superseded, seg) + {id}])
    else m
  }

  function DropId(es: seq<Entry>, id: Id): seq<Entry> { Filter(es, x => x != id) }

  function Apply(m: Mem, op: Op): Mem {
    match op
    case Add(id, item) =>
      var m1 := m.(tombstones := m.tombstones - {id});
      var m2 := if id in m1.bufferIds then m1.(buffer := DropId(m1.buffer, id))
                else m1.(bufferIds := m1.bufferIds + {id});
      var m3 := Supersede(m2, id);
      m3.(buffer := m3.buffer + [(id, item)])
    case Delete(id) =>
      var m1 := if id in m.bufferIds
                then m.(bufferIds := m.bufferIds - {id}, buffer := DropId(m.buffer, id))
                else m;
      var m2 := Supersede(m1, id);
      m2.(tombstones := m2.tombstones + {id})
  }

  /** `flush_buffer`: drain the buffer into a fresh immutable segment. */
  function Seal(m: Mem): Mem {
    if m.buffer == [] then m
    else
      var id := m.nextSegId;
      m.(nextSegId := id + 1,
         owners := m.owners + (map x | x in IdsOf(m.buffer) :: id),
         segments := m.segments + [m.buffer],
         segmentIds := m.segmentIds + [id],
         buffer := [],
         bufferIds := {})
  }

  /** One step of log replay, and of a live write without auto-compaction. */
  function ApplySeal(m: Mem, op: Op, threshold: nat): Mem {
    var m1 := Apply(m, op);
    if |m1.buffer| >= threshold then Seal(m1) else m1
  }

  function Replay(m: Mem, ops: seq<Op>, threshold: nat): Mem {
    if ops == [] then m
    else ApplySeal(Replay(m, ops[..|ops| - 1], threshold), ops[|ops| - 1], threshold)
  }

  // ---------------------------------------------------------------------------
  // The invariant
  // ---------------------------------------------------------------------------

  ghost predicate IdsInStep(m: Mem) {
    && |m.segments| == |m.segmentIds|
    && Increasing(m.segmentIds)
    && (forall i :: 0 <= i < |m.segmentIds| ==> m.segmentIds[i] < m.nextSegId)
  }

  ghost predicate Owns(m: Mem, k: nat, x: Id) { x in m.owners && m.owners[x] == k }

  /** The segment with id `k` holds a copy of `x`. */
  ghost predicate HasCopy(segments: seq<Segment>, ids: seq<nat>, k: nat, x: Id) {
    exists s: nat :: s < |segments| && s < |ids| && ids[s] == k && x in IdsOf(segments[s])
  }

  /** Every sealed copy is either the one `owners` names or listed in `superseded`
      of its segment, never both; and both tables speak only of existing copies. */
  ghost predicate CopiesTracked(m: Mem) {
    && (forall k, x :: HasCopy(m.segments, m.segmentIds, k, x) ==> (Owns(m, k, x) <==> x !in Dead(m.superseded, k)))
    && (forall x :: x in m.owners ==> HasCopy(m.segments, m.segmentIds, m.owners[x], x))
    && (forall k :: k in m.superseded ==> k in m.segmentIds)
    && (forall k, x :: x in Dead(m.superseded, k) ==> HasCopy(m.segments, m.segmentIds, k, x))
  }

  ghost predicate MemInv(m: Mem) {
    && IdsInStep(m)
    && DistinctIds(m.buffer)
    && m.bufferIds == IdsOf(m.buffer)
    && (forall s :: 0 <= s < |m.segments| ==> DistinctIds(m.segments[s]))
    && CopiesTracked(m)
    && m.owners.Keys !! m.bufferIds
    && m.owners.Keys !! m.tombstones
    && m.bufferIds !! m.tombstones
  }

  // ---------------------------------------------------------------------------
  // What a state means: the entries a consumer sees
  // ---------------------------------------------------------------------------

  /** The copy of `e` in segment number `s` passes `is_live_in`. */
  ghost predicate LiveSealed(m: Mem, s: nat, e: Entry)
    requires |m.segments| == |m.segmentIds|
  {
    s < |m.segments| && e in m.segments[s]
    && CopyIsLive(m.tombstones, m.superseded, m.segmentIds[s], e.0)
  }

  ghost predicate Visible(m: Mem, e: Entry)
    requires |m.segments| == |m.segmentIds|
  {
    e in m.buffer || exists s: nat :: LiveSealed(m, s, e)
  }

  /** The live sealed copies and the buffer form exactly the map `r`. */
  ghost predicate Represents(m: Mem, r: RefMap) {
    && |m.segments| == |m.segmentIds|
    && (forall e :: Visible(m, e) <==> e.0 in r && r[e.0] == e.1)
  }

  /** Under the invariant, a sealed copy is live exactly when its segment owns its id. */
  lemma LiveIffOwned(m: Mem, s: nat, x: Id)
    requires MemInv(m) && s < |m.segments| && x in IdsOf(m.segments[s])
    ensures CopyIsLive(m.tombstones, m.superseded, m.segmentIds[s], x) <==> Owns(m, m.segmentIds[s], x)
  {
    assert HasCopy(m.segments, m.segmentIds, m.segmentIds[s], x);
  }

  lemma VisibleIds(m: Mem, e: Entry)
    requires MemInv(m) && Visible(m, e)
    ensures e.0 in m.bufferIds || e.0 in m.owners
    ensures e.0 !in m.tombstones
  {
    if e in m.buffer {
    } else {
      var s: nat :| LiveSealed(m, s, e);
      LiveIffOwned(m, s, e.0);
    }
  }

  lemma VisibleUnique(m: Mem, a: Entry, b: Entry)
    requires MemInv(m) && Visible(m, a) && Visible(m, b) && a.0 == b.0
    ensures a == b
  {
    if a in m.buffer {
      assert b in m.buffer by { if b !in m.buffer { var s: nat :| LiveSealed(m, s, b); LiveIffOwned(m, s, b.0); } }
    } else {
      var s: nat :| LiveSealed(m, s, a);
      LiveIffOwned(m, s, a.0);
      assert b !in m.buffer;
      var t: nat :| LiveSealed(m, t, b);
      LiveIffOwned(m, t, b.0);
      assert s == t;
    }
  }

  ghost function VisibleItem(m: Mem, x: Id): (item: Item)
    requires |m.segments| == |m.segmentIds| && exists e :: Visible(m, e) && e.0 == x
    ensures Visible(m, (x, item))
  {
    var e :| Visible(m, e) && e.0 == x;
    assert e == (x, e.1);
    e.1
  }

  /** Whatever satisfies the invariant is a map. */
  lemma HoldsAMap(m: Mem)
    requires MemInv(m)
    ensures exists r :: Represents(m, r)
  {
    forall x | x in m.owners.Keys + m.bufferIds ensures exists e :: Visible(m, e) && e.0 == x {
      if x in m.bufferIds {
        var e :| e in m.buffer && e.0 == x;
        assert Visible(m, e);
      } else {
        var s: nat :| s < |m.segments| && m.segmentIds[s] == m.owners[x] && x in IdsOf(m.segments[s]);
        LiveIffOwned(m, s, x);
        var e :| e in m.segments[s] && e.0 == x;
        assert LiveSealed(m, s, e);
        assert Visible(m, e);
      }
    }
    var r := map x | x in m.owners.Keys + m.bufferIds :: VisibleItem(m, x);
    forall e ensures Visible(m, e) <==> e.0 in r && r[e.0] == e.1 {
      if Visible(m, e) {
        VisibleIds(m, e);
        VisibleUnique(m, e, (e.0, r[e.0]));
      }
    }
    assert Represents(m, r);
  }
}
