/** The single writer, as an object whose fields change in place. Every disk action and
    every change of its memory is a step of the protocol. */
module Store {
  import opened Base
  import opened Memory
  import opened Refinement
  import opened Merging
  import opened Recovery
  import opened Disk
  import opened Tiering
  import opened Compaction
  import opened Counting
  import opened Protocol
  import opened Safety
  import opened Theorems
  import opened Storage

  datatype Error = Poisoned | LogFailed | WriteFailed | ManifestFailed

  datatype Outcome = Done | Failed(error: Error)

  /** Writing segments or the manifest failed; no logged operation is affected. */
  predicate NotSaved(e: Error) { e == WriteFailed || e == ManifestFailed }

  class SegmentedStore {
    const dir: Directory
    const flushThreshold: nat
    const tiering: TierConfig
    const autoCompact: bool

    var buffer: seq<Entry>
    var segments: seq<Segment>
    var segmentIds: seq<nat>
    var tombstones: set<Id>
    var bufferIds: set<Id>
    var superseded: map<nat, set<Id>>
    var owners: map<Id, nat>
    var nextSegId: nat
    var persistedIds: set<nat>
    var epoch: nat
    var poisoned: bool
    var logDead: bool
    var published: Snapshot

    /** The history positions in memory, and whether a view awaits republishing. */
    ghost var memAt: seq<nat>
    ghost var stale: bool

    function Memory(): Mem
      reads this
    {
      Mem(buffer, segments, segmentIds, tombstones, bufferIds, superseded, owners, nextSegId)
    }

    ghost function Self(): Writer
      reads this
    {
      Writer(Memory(), epoch, persistedIds, poisoned, logDead, published, stale, memAt)
    }

    /** The object is the writer of its directory's run. */
    ghost predicate Linked()
      reads this, dir
    {
      dir.Valid() && dir.world.writer == Some(Self())
    }

    /** Between calls everything synced is applied, and so is everything logged unless
        the log failed. */
    ghost predicate Settled()
      reads this, dir
      requires Linked()
    {
      && (!poisoned ==> !stale && CurLog(dir.world.disk).synced <= Applied(dir.world))
      && (!poisoned && !logDead ==> Applied(dir.world) == |dir.world.logAt|)
    }

    ghost predicate Valid()
      reads this, dir
    {
      Linked() && Settled()
    }

    /** The map the store holds. */
    ghost function Map(): RefMap
      reads this, dir
      requires Linked()
    {
      if Within(memAt, |dir.world.hist|) then FoldAt(dir.world.hist, memAt) else map[]
    }

    // -------------------------------------------------------------------------
    // apply, supersede_sealed_copy, flush_buffer
    // -------------------------------------------------------------------------

    method SupersedeSealedCopy(id: Id)
      modifies this`owners, this`superseded
      ensures Memory() == Supersede(old(Memory()), id)
    {
      if id in owners {
        var seg := owners[id];
        owners := owners - {id};
        var dead := if seg in superseded then superseded[seg] else {};
        superseded := superseded[seg := dead + {id}];
      }
    }

    method ApplyOp(op: Op)
      modifies this`owners, this`superseded, this`tombstones, this`buffer, this`bufferIds
      ensures Memory() == Apply(old(Memory()), op)
    {
      match op {
        case Add(id, item) =>
          tombstones := tombstones - {id};
          if id in bufferIds {
            buffer := DropId(buffer, id);
          } else {
            bufferIds := bufferIds + {id};
          }
          SupersedeSealedCopy(id);
          buffer := buffer + [(id, item)];
        case Delete(id) =>
          if id in bufferIds {
            bufferIds := bufferIds - {id};
            buffer := DropId(buffer, id);
          }
          SupersedeSealedCopy(id);
          tombstones := tombstones + {id};
      }
    }

    method AllocateId() returns (id: nat)
      modifies this`nextSegId
      ensures id == old(nextSegId) && nextSegId == id + 1
    {
      id := nextSegId;
      nextSegId := nextSegId + 1;
    }

    /** Point the owners of `es` to segment `id`. */
    method TakeOwnership(es: seq<Entry>, id: nat)
      modifies this`owners
      ensures owners == old(owners) + (map x | x in IdsOf(es) :: id)
    {
      var i := 0;
      while i < |es|
        modifies this`owners
        invariant 0 <= i <= |es|
        invariant owners == old(owners) + (map x | x in IdsOf(es[..i]) :: id)
      {
        assert IdsOf(es[..i + 1]) == IdsOf(es[..i]) + {es[i].0} by { assert es[..i + 1] == es[..i] + [es[i]]; }
        owners := owners[es[i].0 := id];
        i := i + 1;
      }
      assert es[..|es|] == es;
    }

    method FlushBuffer()
      modifies this`owners, this`buffer, this`bufferIds, this`segments, this`segmentIds, this`nextSegId
      ensures Memory() == Seal(old(Memory()))
    {
      if buffer == [] { return; }
      var id := AllocateId();
      TakeOwnership(buffer, id);
      segments := segments + [buffer];
      segmentIds := segmentIds + [id];
      buffer := [];
      bufferIds := {};
    }

    // -------------------------------------------------------------------------
    // Opening
    // -------------------------------------------------------------------------

    /** A writer holding a loaded checkpoint, before replay. */
    constructor FromCheckpoint(dir: Directory, m: Mem, epoch: nat, threshold: nat, tiering: TierConfig,
                               autoCompact: bool)
      ensures this.dir == dir && flushThreshold == threshold
      ensures this.tiering == tiering && this.autoCompact == autoCompact
      ensures Memory() == m && this.epoch == epoch && !stale && persistedIds == (set k | k in m.segmentIds)
      ensures !poisoned && !logDead && published == SnapshotOf(m)
    {
      this.dir, flushThreshold, this.tiering, this.autoCompact := dir, threshold, tiering, autoCompact;
      buffer, segments, segmentIds, tombstones := m.buffer, m.segments, m.segmentIds, m.tombstones;
      bufferIds, superseded, owners, nextSegId := m.bufferIds, m.superseded, m.owners, m.nextSegId;
      persistedIds := set k | k in m.segmentIds;
      this.epoch := epoch;
      poisoned, logDead := false, false;
      published := Snapshot(m.segments, m.segmentIds, m.tombstones, m.superseded);
      memAt, stale := [], false;
    }

    /** Load the checkpoint: `None` for a refused read, a missing file or two live copies
        of an id in one segment. */
    static method LoadCheckpoint(dir: Directory) returns (r: Option<Mem>)
      modifies dir`faults
      ensures if dir.faults == old(dir.faults) then r == Load(dir.Contents())
              else r.None? && dir.faults > old(dir.faults)
    {
      var found := dir.ReadManifest();
      if found.None? { return None; }
      if found.value.None? { return Some(EMPTY_MEM); }
      var mf := found.value.value;
      var loaded: seq<Segment> := [];
      while |loaded| < |mf.segmentIds|
        invariant dir.faults == old(dir.faults) && |loaded| <= |mf.segmentIds|
        invariant forall j :: 0 <= j < |loaded| ==>
                    mf.segmentIds[j] in dir.segs && loaded[j] == dir.segs[mf.segmentIds[j]]
      {
        var seg := dir.ReadSegment(mf.segmentIds[|loaded|]);
        if seg.None? || seg.value.None? { return None; }
        loaded := loaded + [seg.value.value];
      }
      assert FilesPresent(mf.segmentIds, dir.segs) && Files(mf.segmentIds, dir.segs) == loaded;
      var t := RebuildOwners(mf.tombstones, mf.superseded, mf.segmentIds, loaded);
      if t.None? { return None; }
      return Some(Mem([], loaded, mf.segmentIds, mf.tombstones, {}, t.value.superseded, t.value.owners, mf.nextSegId));
    }

    /** A removal that touches nothing the manifest needs. */
    static twostate predicate OnlyLeftovers(dir: Directory)
      reads dir
    {
      && dir.Valid() && dir.world.writer.None?
      && dir.world == old(dir.world).(disk := dir.Contents())
      && dir.manifest == old(dir.manifest)
      && CurLog(dir.Contents()) == CurLog(old(dir.Contents()))
      && Load(dir.Contents()) == Load(old(dir.Contents()))
      && old(dir.skips) <= dir.skips && dir.faults == old(dir.faults)
    }

    static method DropLog(dir: Directory, k: nat)
      requires dir.Valid() && dir.world.writer.None? && k != Epoch(dir.Contents())
      modifies dir`logs, dir`skips, dir`events, dir`trace, dir`world
      ensures OnlyLeftovers(dir) && dir.segs == old(dir.segs)
      ensures dir.logs == old(dir.logs) - {k} || (dir.logs == old(dir.logs) && dir.skips > old(dir.skips))
    {
      var ok := dir.RemoveLogFile(k);
      if ok { dir.Advance(RemoveLog(k)); }
    }

    static method DropSegment(dir: Directory, k: nat)
      requires dir.Valid() && dir.world.writer.None? && k !in NamedIds(dir.Contents())
      modifies dir`segs, dir`skips, dir`events, dir`trace, dir`world
      ensures OnlyLeftovers(dir) && dir.logs == old(dir.logs)
      ensures dir.segs == old(dir.segs) - {k} || (dir.segs == old(dir.segs) && dir.skips > old(dir.skips))
    {
      ghost var before := dir.Contents();
      var ok := dir.RemoveSegmentFile(k);
      if ok {
        dir.Advance(RemoveSegment(k));
        LoadByNames(before, dir.Contents());
      }
    }

    static method CollectLogs(dir: Directory, epoch: nat)
      requires dir.Valid() && dir.world.writer.None? && epoch == Epoch(dir.Contents())
      modifies dir`logs, dir`skips, dir`events, dir`trace, dir`world
      ensures OnlyLeftovers(dir) && dir.segs == old(dir.segs)
      ensures dir.skips == old(dir.skips) ==> forall k :: k in dir.logs ==> k == epoch
    {
      var epochs := dir.ListLogs();
      while epochs != {}
        invariant OnlyLeftovers(dir) && dir.segs == old(dir.segs)
        invariant dir.skips == old(dir.skips) ==> forall k :: k in dir.logs ==> k == epoch || k in epochs
        decreases |epochs|
      {
        var k :| k in epochs;
        epochs := epochs - {k};
        if k != epoch { DropLog(dir, k); }
      }
    }

    static method CollectSegments(dir: Directory, named: seq<nat>)
      requires dir.Valid() && dir.world.writer.None? && named == NamedIds(dir.Contents())
      modifies dir`segs, dir`skips, dir`events, dir`trace, dir`world
      ensures OnlyLeftovers(dir) && dir.logs == old(dir.logs)
      ensures dir.skips == old(dir.skips) ==> forall k :: k in dir.segs ==> k in named
    {
      var ids := dir.ListSegments();
      while ids != {}
        invariant OnlyLeftovers(dir) && dir.logs == old(dir.logs)
        invariant dir.skips == old(dir.skips) ==> forall k :: k in dir.segs ==> k in named || k in ids
        decreases |ids|
      {
        var k :| k in ids;
        ids := ids - {k};
        if k !in named { DropSegment(dir, k); }
      }
    }

    /** Only sidecars of segments outside `keep` went; if nothing was skipped, all of them. */
    static twostate predicate SidecarsCollected(dir: Directory, keep: seq<nat>)
      reads dir
    {
      && dir.sidecars <= old(dir.sidecars) && old(dir.skips) <= dir.skips
      && (forall n :: n in old(dir.sidecars) && n.0 in keep ==> n in dir.sidecars)
      && (dir.skips == old(dir.skips) ==> forall n :: n in dir.sidecars ==> n.0 in keep)
    }

    /** Index sidecars of segments outside `keep`. */
    static method CollectSidecars(dir: Directory, keep: seq<nat>)
      modifies dir`sidecars, dir`skips
      ensures SidecarsCollected(dir, keep)
    {
      var names := dir.ListSidecars();
      while names != {}
        invariant dir.sidecars <= old(dir.sidecars) && old(dir.skips) <= dir.skips
        invariant forall n :: n in old(dir.sidecars) && n.0 in keep ==> n in dir.sidecars
        invariant dir.skips == old(dir.skips) ==> forall n :: n in dir.sidecars ==> n.0 in keep || n in names
        decreases |names|
      {
        var name :| name in names;
        names := names - {name};
        if name.0 !in keep { var _ := dir.RemoveSidecar(name); }
      }
    }

    /** Temporary files that crashes left inside segment writes. */
    static method CollectTemps(dir: Directory)
      modifies dir`temps, dir`skips
      ensures old(dir.skips) <= dir.skips && (dir.skips == old(dir.skips) ==> dir.temps == {})
    {
      var ids := dir.ListTemps();
      while ids != {}
        invariant old(dir.skips) <= dir.skips && (dir.skips == old(dir.skips) ==> dir.temps == ids)
        decreases |ids|
      {
        var k :| k in ids;
        ids := ids - {k};
        var _ := dir.RemoveTemp(k);
      }
    }

    /** Nothing is left but the manifest, its segments, their sidecars, and its log. */
    static predicate Tidied(dir: Directory)
      reads dir
    {
      && (forall k :: k in dir.logs ==> k == Epoch(dir.Contents()))
      && (forall k :: k in dir.segs ==> k in NamedIds(dir.Contents()))
      && (forall n :: n in dir.sidecars ==> n.0 in NamedIds(dir.Contents()))
      && dir.temps == {}
    }

    /** Garbage collection on open, each removal best effort. If none is skipped, nothing
        else is left; sidecars of current segments always stay. */
    static method CollectLeftovers(dir: Directory)
      requires dir.Valid() && dir.world.writer.None?
      modifies dir
      ensures OnlyLeftovers(dir)
      ensures forall n :: n in old(dir.sidecars) && n.0 in NamedIds(dir.Contents()) ==> n in dir.sidecars
      ensures dir.skips == old(dir.skips) ==> Tidied(dir)
    {
      var named := if dir.manifest.Some? then dir.manifest.value.segmentIds else [];
      CollectLogs(dir, if dir.manifest.Some? then dir.manifest.value.epoch else 0);
      CollectTemps(dir);
      CollectSegments(dir, named);
      CollectSidecars(dir, named);
    }

    /** Replay through the same apply and seal steps as live writes. */
    method ReplayLog(ops: seq<Op>)
      modifies this`owners, this`superseded, this`tombstones, this`buffer, this`bufferIds
      modifies this`segments, this`segmentIds, this`nextSegId
      ensures Memory() == Replay(old(Memory()), ops, flushThreshold)
    {
      var i := 0;
      while i < |ops|
        invariant 0 <= i <= |ops|
        invariant Memory() == Replay(old(Memory()), ops[..i], flushThreshold)
      {
        assert ops[..i + 1][..i] == ops[..i];
        ApplyOp(ops[i]);
        if |buffer| >= flushThreshold { FlushBuffer(); }
        i := i + 1;
      }
      assert ops[..|ops|] == ops;
    }

    /** The opened object becomes the writer of the run. */
    ghost method Join()
      requires dir.Valid() && dir.world.writer.None? && Load(dir.Contents()).Some?
      requires Some(Memory()) == Recover(dir.Contents(), flushThreshold)
      requires published == SnapshotOf(Load(dir.Contents()).value)
      requires epoch == Epoch(dir.Contents()) && persistedIds == (set k | k in NamedIds(dir.Contents()))
      requires !poisoned && !logDead && !stale
      modifies this`memAt, dir`events, dir`trace, dir`world
      ensures Valid() && dir.world.hist == old(dir.world.hist) && Selection(dir.world.hist, memAt)
    {
      memAt := dir.world.done + dir.world.logAt;
      assert Selection(dir.world.hist, memAt) && CurLog(dir.world.disk).synced <= |dir.world.logAt| by {
        dir.Invariant();
        WholeLogSelects(dir.world);
      }
      dir.Advance(Event.Open(flushThreshold));
      ghost var wr := dir.world.writer.value;
      assert wr.mem == Memory() && wr.persisted == persistedIds && wr.published == published;
    }

    /** The writer after replaying `ops` over a loaded checkpoint. */
    static method Restore(dir: Directory, m: Mem, epoch: nat, ops: seq<Op>, threshold: nat, tiering: TierConfig,
                          autoCompact: bool)
      returns (s: SegmentedStore)
      ensures fresh(s) && s.dir == dir && s.flushThreshold == threshold && s.tiering == tiering
      ensures s.autoCompact == autoCompact && s.Memory() == Replay(m, ops, threshold) && s.epoch == epoch
      ensures !s.stale && !s.poisoned && !s.logDead && s.published == SnapshotOf(m)
      ensures s.persistedIds == (set k | k in m.segmentIds)
    {
      s := new SegmentedStore.FromCheckpoint(dir, m, epoch, threshold, tiering, autoCompact);
      s.ReplayLog(ops);
    }

    /** `open_with_options`: load, collect leftovers, replay the log. From any directory a
        run can leave behind, this succeeds with the recovered memory unless a read is
        refused; then nothing has changed, and opening can be tried again. */
    static method OpenStore(dir: Directory, threshold: nat, tiering: TierConfig, autoCompact: bool)
      returns (r: Option<SegmentedStore>)
      requires dir.Valid() && dir.world.writer.None?
      modifies dir
      ensures old(dir.faults) <= dir.faults && dir.world.hist == old(dir.world.hist)
      ensures r.None? ==> dir.faults > old(dir.faults) && dir.Valid()
                          && dir.world == old(dir.world) && dir.Contents() == old(dir.Contents())
      ensures r.Some? ==> fresh(r.value) && r.value.Valid() && r.value.dir == dir
      ensures r.Some? ==> r.value.flushThreshold == threshold && r.value.tiering == tiering
                          && r.value.autoCompact == autoCompact && !r.value.poisoned && !r.value.logDead
      ensures r.Some? ==> Recover(old(dir.Contents()), threshold) == Some(r.value.Memory())
                          && Selection(dir.world.hist, r.value.memAt)
      ensures r.Some? && dir.skips == old(dir.skips) ==> Tidied(dir)
    {
      var d := dir.Contents();
      var m := LoadCheckpoint(dir);
      if m.None? {
        assert Load(d).Some? by { dir.Invariant(); }
        return None;
      }
      var epoch := if d.manifest.Some? then d.manifest.value.epoch else 0;
      var ops := dir.ReadLog(epoch);
      if ops.None? { return None; }
      CollectLeftovers(dir);
      var s := Restore(dir, m.value, epoch, ops.value, threshold, tiering, autoCompact);
      LoadNamed(d);
      s.Join();
      return Some(s);
    }

    /** Crash refinement, end to end: kill the process whatever it was doing and open the
        store again. Unless a read is refused, memory is what the in-order fold of a
        selection of the operations ever issued looks like, and the selection leaves out
        none that was acknowledged. */
    static method CrashAndOpen(dir: Directory, threshold: nat, tiering: TierConfig, autoCompact: bool)
      returns (r: Option<SegmentedStore>)
      requires dir.Valid()
      modifies dir
      ensures dir.world.hist == old(dir.world.hist)
      ensures r.None? ==> dir.Valid() && dir.faults > old(dir.faults)
      ensures r.Some? ==> fresh(r.value) && r.value.Valid() && r.value.dir == dir
                          && !r.value.poisoned && !r.value.logDead
      ensures r.Some? ==> Selection(dir.world.hist, r.value.memAt)
                          && Represents(r.value.Memory(), FoldAt(dir.world.hist, r.value.memAt))
    {
      dir.Fail();
      r := OpenStore(dir, threshold, tiering, autoCompact);
      if r.Some? { r.value.MemoryWithin(); }
    }

    // -------------------------------------------------------------------------
    // Steps shared by the operations
    // -------------------------------------------------------------------------

    /** Nothing was issued, logged or applied, and the commit point did not move. */
    twostate predicate Undisturbed()
      reads this, dir
    {
      && dir.world.hist == old(dir.world.hist)
      && dir.world.done == old(dir.world.done) && dir.world.logAt == old(dir.world.logAt)
      && CurLog(dir.world.disk) == CurLog(old(dir.world.disk))
      && memAt == old(memAt) && stale == old(stale)
      && epoch == old(epoch) && poisoned == old(poisoned) && logDead == old(logDead)
      && published == old(published)
      && old(dir.events) <= dir.events && old(dir.faults) <= dir.faults
    }

    /** Some disk action of this call was refused. */
    twostate predicate Refused()
      reads this, dir
    {
      dir.faults > old(dir.faults)
    }

    /** Only segment files were written. */
    twostate predicate OnlySegments()
      reads this, dir
    {
      && dir.manifest == old(dir.manifest) && dir.logs == old(dir.logs)
      && dir.sidecars == old(dir.sidecars) && dir.skips == old(dir.skips)
    }

    method SealStep()
      requires Linked()
      modifies this, dir`events, dir`trace, dir`world
      ensures Linked() && Undisturbed() && Memory() == Seal(old(Memory())) && persistedIds == old(persistedIds)
    {
      FlushBuffer();
      dir.Advance(SealBuffer);
    }

    /** `persist_segment`. */
    method PersistSegment(id: nat, seg: Segment) returns (ok: bool)
      requires Linked() && Enabled(dir.world, WriteSegment(id, seg, Success))
      modifies this`persistedIds
      modifies dir`segs, dir`platter, dir`faults, dir`events, dir`trace, dir`world
      ensures Linked() && Undisturbed()
      ensures persistedIds == if ok then old(persistedIds) + {id} else old(persistedIds)
      ensures OnlySegments() && if ok then id in dir.segs && dir.segs[id] == seg else Refused()
    {
      var fault := dir.PutSegment(id, seg);
      dir.Advance(WriteSegment(id, seg, fault));
      ok := fault.Success?;
      if ok { persistedIds := persistedIds + {id}; }
    }

    // -------------------------------------------------------------------------
    // merge_group
    // -------------------------------------------------------------------------

    /** Forget the superseded copies of the group. */
    method ForgetSuperseded(indices: seq<nat>)
      requires Within(indices, |segmentIds|)
      modifies this`superseded
      ensures superseded == old(superseded) - GroupIds(old(Memory()), indices)
    {
      var j := 0;
      while j < |indices|
        invariant 0 <= j <= |indices|
        invariant superseded == old(superseded) - GroupIds(old(Memory()), indices[..j])
      {
        assert indices[..j + 1] == indices[..j] + [indices[j]];
        assert GroupIds(old(Memory()), indices[..j + 1])
            == GroupIds(old(Memory()), indices[..j]) + {segmentIds[indices[j]]};
        superseded := superseded - {segmentIds[indices[j]]};
        j := j + 1;
      }
      assert indices[..|indices|] == indices;
    }

    method AddSegment(seg: Segment, id: nat)
      modifies this`segments, this`segmentIds, this`owners
      ensures Memory() == AppendSegment(old(Memory()), seg, id)
    {
      TakeOwnership(seg, id);
      segments := segments + [seg];
      segmentIds := segmentIds + [id];
    }

    method RemoveGroup(indices: seq<nat>)
      requires |segments| == |segmentIds| && Within(indices, |segments|)
      modifies this`superseded, this`segments, this`segmentIds
      ensures Memory() == DropGroup(old(Memory()), indices)
    {
      var kept := KeptIndices(Memory(), indices);
      ForgetSuperseded(indices);
      segments := Pick(segments, kept);
      segmentIds := Pick(segmentIds, kept);
    }

    /** The in-memory half of `merge_group`. */
    method ReplaceGroup(indices: seq<nat>, merged: Segment, id: nat)
      requires |segments| == |segmentIds| && Within(indices, |segments|)
      modifies this`superseded, this`segments, this`segmentIds, this`owners
      ensures Memory() == Replace(old(Memory()), indices, merged, id)
    {
      RemoveGroup(indices);
      if merged != [] { AddSegment(merged, id); }
    }

    /** The next id can be written, and names no current segment. */
    lemma NextIsFresh(w: World)
      requires WorldInv(w) && w.writer.Some?
      ensures NextId(w.disk) <= w.writer.value.mem.nextSegId
      ensures |w.writer.value.mem.segments| == |w.writer.value.mem.segmentIds|
      ensures FreshId(Alloc(w.writer.value.mem), w.writer.value.mem.nextSegId)
    {
    }

    lemma NextFits()
      requires Linked()
      ensures NextId(dir.world.disk) <= nextSegId && FreshId(Alloc(Memory()), nextSegId) && |segments| == |segmentIds|
    {
      dir.Invariant();
      NextIsFresh(dir.world);
    }

    /** Allocate an id and write `seg` under it. */
    method WriteFresh(seg: Segment) returns (id: nat, ok: bool)
      requires Linked()
      modifies this`nextSegId, this`persistedIds
      modifies dir`segs, dir`platter, dir`faults, dir`events, dir`trace, dir`world
      ensures Linked() && Undisturbed()
      ensures id == old(nextSegId) && Memory() == Alloc(old(Memory())) && FreshId(Memory(), id)
      ensures if ok then id in persistedIds && id in dir.segs && dir.segs[id] == seg else Refused()
    {
      NextFits();
      id := AllocStep();
      FreshFits(id, seg);
      ok := PersistSegment(id, seg);
    }

    /** A new id below the next one can be written. */
    lemma FreshFits(id: nat, seg: Segment)
      requires Linked() && FreshId(Memory(), id) && NextId(dir.world.disk) <= id && |segments| == |segmentIds|
      ensures Enabled(dir.world, WriteSegment(id, seg, Success))
    {
    }

    method AllocStep() returns (id: nat)
      requires Linked()
      modifies this`nextSegId, dir`events, dir`trace, dir`world
      ensures Linked() && Undisturbed() && id == old(nextSegId) && Memory() == Alloc(old(Memory()))
    {
      id := AllocateId();
      dir.Advance(AllocId);
    }

    /** `merge_group`: write the merged file, then swap it in. A refused write leaves the
        store as it was, but for the allocated id. */
    method MergeSegmentsAt(indices: seq<nat>) returns (r: Option<nat>)
      requires Linked() && Group(Memory(), indices)
      modifies this
      modifies dir`segs, dir`platter, dir`faults, dir`events, dir`trace, dir`world
      ensures Linked() && Undisturbed()
      ensures r.Some? ==> Memory() == MergeGroup(old(Memory()), indices) && r.value == |Merged(old(Memory()), indices)|
      ensures r.None? ==> Memory() == Alloc(old(Memory())) && Refused()
    {
      var merged := Merged(Memory(), indices);
      var id := 0;
      if |merged| > 0 {
        assert Merged(Alloc(Memory()), indices) == merged by {
          dir.Invariant();
          MergedAlloc(Memory(), indices);
        }
        var ok;
        id, ok := WriteFresh(merged);
        if !ok { return None; }
      }
      SwapStep(indices, merged, id);
      return Some(|merged|);
    }

    /** The step that `SwapStep` performs. */
    ghost method AdvanceSwap(indices: seq<nat>, id: nat)
      requires Linked() && Group(Memory(), indices)
      requires var merged := Merged(Memory(), indices);
               merged != [] ==> FreshId(Memory(), id) && id in persistedIds && id in dir.segs && dir.segs[id] == merged
      modifies dir`events, dir`trace, dir`world
      ensures dir.Valid() && old(dir.events) <= dir.events
      ensures dir.world == SetMem(old(dir.world), Swap(Memory(), indices, id))
    {
      dir.Advance(SwapGroup(indices, id));
    }

    method SwapStep(indices: seq<nat>, merged: Segment, id: nat)
      requires Linked() && Group(Memory(), indices) && merged == Merged(Memory(), indices)
      requires merged != [] ==> FreshId(Memory(), id) && id in persistedIds && id in dir.segs && dir.segs[id] == merged
      modifies this, dir`events, dir`trace, dir`world
      ensures Linked() && Undisturbed() && persistedIds == old(persistedIds)
      ensures Memory() == Replace(old(Memory()), indices, merged, id)
    {
      AdvanceSwap(indices, id);
      ReplaceGroup(indices, merged, id);
    }

    // -------------------------------------------------------------------------
    // checkpoint
    // -------------------------------------------------------------------------

    /** Write every segment that has no file yet, before the manifest names it. */
    method PersistAll() returns (ok: bool)
      requires Linked()
      modifies this`persistedIds, dir
      ensures Linked() && Undisturbed()
      ensures OnlySegments()
      ensures if ok then forall i :: 0 <= i < |segmentIds| ==> segmentIds[i] in persistedIds else Refused()
    {
      assert |segments| == |segmentIds| by { dir.Invariant(); }
      var i := 0;
      while i < |segmentIds|
        modifies this`persistedIds, dir
        invariant 0 <= i <= |segmentIds|
        invariant Linked() && Undisturbed() && OnlySegments()
        invariant forall j :: 0 <= j < i ==> segmentIds[j] in persistedIds
      {
        if segmentIds[i] !in persistedIds {
          CurrentFits(i);
          var done := PersistSegment(segmentIds[i], segments[i]);
          if !done { return false; }
        }
        i := i + 1;
      }
      return true;
    }

    lemma CurrentFits(i: nat)
      requires Linked() && i < |segmentIds| == |segments| && segmentIds[i] !in persistedIds
      ensures Enabled(dir.world, WriteSegment(segmentIds[i], segments[i], Success))
    {
      dir.Invariant();
      Writable(dir.world, i);
    }

    /** A segment without a file is newer than anything the manifest names. */
    lemma Writable(w: World, i: nat)
      requires WorldInv(w) && w.writer.Some? && i < |w.writer.value.mem.segmentIds|
      requires w.writer.value.mem.segmentIds[i] !in w.writer.value.persisted
      ensures i < |w.writer.value.mem.segments|
      ensures Enabled(w, WriteSegment(w.writer.value.mem.segmentIds[i], w.writer.value.mem.segments[i], Success))
    {
    }

    /** What a call of `checkpoint` or of a compaction may change: nothing is issued, and
        the map stays. */
    twostate predicate SameHistory()
      reads this, dir
    {
      && dir.world.hist == old(dir.world.hist) && memAt == old(memAt)
      && old(dir.events) <= dir.events && old(dir.faults) <= dir.faults
    }

    /** Memory became the commit point: a new manifest, a new log and a new view. */
    twostate predicate NewCommit()
      reads this, dir
    {
      AtCheckpoint() && epoch == old(epoch) + 1 && published == SnapshotOf(Memory())
    }

    /** The commit point and its files are what they were. */
    twostate predicate SameCommit()
      reads this, dir
    {
      && epoch == old(epoch) && published == old(published)
      && dir.manifest == old(dir.manifest) && dir.segs == old(dir.segs) && dir.logs == old(dir.logs)
    }

    /** Memory is exactly what the manifest saves, and the log is empty. */
    ghost predicate AtCheckpoint()
      reads this, dir
    {
      && Linked() && !poisoned && !logDead && buffer == []
      && Saved(dir.world.disk, Memory())
      && dir.world.done == memAt && dir.world.logAt == [] && CurLog(dir.world.disk) == Log([], 0)
    }

    /** Garbage collection after a commit: the old log and every unnamed segment file,
        each removal best effort. If none is skipped, nothing else is left. */
    method CollectGarbage(oldEpoch: nat)
      requires AtCheckpoint() && oldEpoch != Epoch(dir.world.disk)
      modifies this`persistedIds, dir
      ensures AtCheckpoint() && Undisturbed() && Collected(oldEpoch)
    {
      RetainPersisted();
      DropOldLog(oldEpoch);
      CollectUnnamed();
      CollectSidecars(dir, segmentIds);
    }

    method CollectUnnamed()
      requires AtCheckpoint()
      modifies dir`segs, dir`skips, dir`events, dir`trace, dir`world
      ensures AtCheckpoint() && Undisturbed() && old(dir.skips) <= dir.skips
      ensures dir.skips == old(dir.skips) ==> forall k :: k in dir.segs ==> k in segmentIds
    {
      var ids := dir.ListSegments();
      while ids != {}
        invariant AtCheckpoint() && Undisturbed() && old(dir.skips) <= dir.skips
        invariant dir.skips == old(dir.skips) ==> forall k :: k in dir.segs ==> k in segmentIds || k in ids
        decreases |ids|
      {
        var k :| k in ids;
        ids := ids - {k};
        if k !in segmentIds { DropUnnamed(k); }
      }
    }

    /** Unless a removal was skipped, the old log is gone and only current segments and
        their sidecars are left; sidecars of current segments always stay. */
    twostate predicate Collected(oldEpoch: nat)
      reads this, dir
    {
      && old(dir.skips) <= dir.skips
      && (forall n :: n in old(dir.sidecars) && n.0 in segmentIds ==> n in dir.sidecars)
      && (dir.skips == old(dir.skips) ==>
            && dir.logs == old(dir.logs) - {oldEpoch}
            && (forall k :: k in dir.segs ==> k in segmentIds)
            && (forall n :: n in dir.sidecars ==> n.0 in segmentIds))
    }

    method RetainPersisted()
      requires Linked()
      modifies this`persistedIds, dir`events, dir`trace, dir`world
      ensures Linked() && Undisturbed()
    {
      persistedIds := set k | k in persistedIds && k in segmentIds;
      dir.Advance(Forget);
    }

    method DropOldLog(oldEpoch: nat)
      requires Linked() && oldEpoch != Epoch(dir.world.disk)
      modifies dir`logs, dir`skips, dir`events, dir`trace, dir`world
      ensures Linked() && Undisturbed()
      ensures old(dir.skips) <= dir.skips
      ensures dir.skips == old(dir.skips) ==> dir.logs == old(dir.logs) - {oldEpoch}
    {
      var removed := dir.RemoveLogFile(oldEpoch);
      if removed { dir.Advance(RemoveLog(oldEpoch)); }
    }

    method DropUnnamed(k: nat)
      requires Linked() && Saved(dir.world.disk, Memory()) && k !in segmentIds
      modifies dir`segs, dir`skips, dir`events, dir`trace, dir`world
      ensures Linked() && Undisturbed() && Saved(dir.world.disk, Memory())
      ensures old(dir.skips) <= dir.skips
      ensures dir.skips == old(dir.skips) ==> dir.segs == old(dir.segs) - {k}
      ensures dir.segs.Keys <= old(dir.segs).Keys
    {
      var ok := dir.RemoveSegmentFile(k);
      if ok {
        dir.Advance(RemoveSegment(k));
        assert Files(segmentIds, dir.segs) == segments;
      }
    }

    /** Only current segments are recorded as superseded, so nothing is pruned here. */
    method PruneSuperseded()
      requires Linked()
      modifies this`superseded
      ensures Memory() == old(Memory())
    {
      assert forall k :: k in superseded ==> k in segmentIds by { dir.Invariant(); }
      superseded := map k | k in superseded && k in segmentIds :: superseded[k];
    }

    /** Write the manifest of memory, under the next epoch. */
    method WriteManifest() returns (fault: Fault)
      requires Linked() && Enabled(dir.world, Commit(Success))
      modifies dir`manifest, dir`faults, dir`events, dir`trace, dir`world
      ensures dir.Valid() && dir.world.hist == old(dir.world.hist) && old(dir.events) <= dir.events
      ensures dir.faults == old(dir.faults) + Refusals(fault)
      ensures dir.world.writer == Some(if fault.Success?
                                       then Self().(epoch := epoch + 1, logDead := false, stale := true)
                                       else Self().(poisoned := true))
      ensures fault.Success? ==> Fresh(dir.world, Self())
    {
      fault := dir.PutManifest(Manifest(epoch + 1, nextSegId, segmentIds, tombstones, superseded));
      dir.AdvanceCommit(fault);
    }

    /** Commit; on failure the store is poisoned. */
    method CommitManifest() returns (ok: bool)
      requires Linked() && Enabled(dir.world, Commit(Success)) && buffer == [] && !poisoned
      modifies this`epoch, this`logDead, this`poisoned, this`stale
      modifies dir`manifest, dir`faults, dir`events, dir`trace, dir`world
      ensures Linked() && dir.world.hist == old(dir.world.hist) && old(dir.events) <= dir.events
      ensures old(dir.faults) <= dir.faults && (ok <==> !poisoned) && (!ok ==> Refused())
      ensures ok ==> epoch == old(epoch) + 1 && stale && AtCheckpoint() && Epoch(dir.world.disk) == epoch
    {
      var fault := WriteManifest();
      ok := fault.Success?;
      if ok { EnterEpoch(); } else { poisoned := true; }
    }

    /** The manifest is on disk; the store follows. */
    method EnterEpoch()
      requires dir.Valid() && Fresh(dir.world, Self()) && buffer == [] && !poisoned
      requires dir.world.writer == Some(Self().(epoch := epoch + 1, logDead := false, stale := true))
      modifies this`epoch, this`logDead, this`stale
      ensures AtCheckpoint() && stale && epoch == old(epoch) + 1 && Epoch(dir.world.disk) == epoch
    {
      epoch, logDead, stale := epoch + 1, false, true;
    }

    method Republish()
      requires AtCheckpoint() && stale
      modifies this`published, this`stale, dir`events, dir`trace, dir`world
      ensures AtCheckpoint() && !stale && published == SnapshotOf(Memory())
      ensures dir.world.hist == old(dir.world.hist) && old(dir.events) <= dir.events
    {
      dir.Advance(Publish);
      published := Snapshot(segments, segmentIds, tombstones, superseded);
      stale := false;
    }

    /** `checkpoint`: make memory the commit point, rotate the log, collect garbage and
        publish. A failed manifest write poisons the store. */
    method Checkpoint() returns (r: Outcome)
      requires Valid()
      modifies this, dir
      ensures Valid() && SameHistory()
      ensures old(poisoned) ==> r == Failed(Poisoned) && Memory() == old(Memory()) && dir.world == old(dir.world)
      ensures !old(poisoned) ==> Memory() == Seal(old(Memory())) && poisoned == (r == Failed(ManifestFailed))
      ensures r.Failed? ==> old(poisoned) || (Refused() && NotSaved(r.error))
      ensures r.Done? ==> NewCommit() && Collected(old(epoch))
    {
      if poisoned { return Failed(Poisoned); }
      var ok := SealAndPersist();
      r := Failed(WriteFailed);
      if ok { r := CommitAndPublish(); }
    }

    /** The first half of `checkpoint`: seal, write every new segment, prune. */
    method SealAndPersist() returns (ok: bool)
      requires Linked()
      modifies this, dir
      ensures Linked() && Undisturbed() && Memory() == Seal(old(Memory())) && buffer == []
      ensures OnlySegments()
      ensures if ok then forall i :: 0 <= i < |segmentIds| ==> segmentIds[i] in persistedIds else Refused()
    {
      SealStep();
      SealEmpties(old(Memory()));
      ok := PersistAll();
      PruneSuperseded();
    }

    /** The second half of `checkpoint`, with every segment on file. */
    method CommitAndPublish() returns (r: Outcome)
      requires Linked() && buffer == [] && !poisoned && CurLog(dir.world.disk).synced <= Applied(dir.world)
      requires forall i :: 0 <= i < |segmentIds| ==> segmentIds[i] in persistedIds
      modifies this`epoch, this`logDead, this`poisoned, this`stale, this`published, this`persistedIds, dir
      ensures Linked() && SameHistory()
      ensures if poisoned then r == Failed(ManifestFailed) && Refused() else r == Done
      ensures r.Done? ==> AtCheckpoint() && !stale && epoch == old(epoch) + 1 && published == SnapshotOf(Memory())
      ensures r.Done? ==> Collected(old(epoch))
    {
      var oldEpoch := epoch;
      var ok := CommitManifest();
      if !ok { return Failed(ManifestFailed); }
      assert dir.logs == old(dir.logs) && dir.sidecars == old(dir.sidecars) && dir.skips == old(dir.skips);
      FinishCheckpoint(oldEpoch);
      return Done;
    }

    /** Past the commit point: collect garbage and publish. */
    method FinishCheckpoint(oldEpoch: nat)
      requires AtCheckpoint() && stale && oldEpoch != Epoch(dir.world.disk)
      modifies this`published, this`stale, this`persistedIds, dir
      ensures AtCheckpoint() && !stale && published == SnapshotOf(Memory())
      ensures SameHistory() && Collected(oldEpoch)
    {
      CollectGarbage(oldEpoch);
      Republish();
    }

    lemma SealEmpties(m: Mem)
      ensures Seal(m).buffer == []
    {
    }

    // -------------------------------------------------------------------------
    // Compactions
    // -------------------------------------------------------------------------

    /** Merge while a bucket is eligible. */
    method RunTiers() returns (ok: bool, merges: nat, moved: nat)
      requires Linked() && |segments| == |segmentIds|
      modifies this
      modifies dir`segs, dir`platter, dir`faults, dir`events, dir`trace, dir`world
      ensures Linked() && Undisturbed() && buffer == old(buffer)
      ensures !ok ==> Refused()
      ensures ok ==> Memory() == TierLoop(old(Memory()), flushThreshold, tiering).0
                     && moved == TierLoop(old(Memory()), flushThreshold, tiering).1
                     && merges == TierMerges(old(Memory()), flushThreshold, tiering)
      ensures merges == 0 ==> dir.segs == old(dir.segs)
    {
      ghost var m1 := Memory();
      merges, moved := 0, 0;
      var g := NextMergeGroup(Sizes(Memory()), flushThreshold, tiering);
      while g.Some?
        invariant Linked() && Undisturbed() && buffer == old(buffer)
        invariant |segments| == |segmentIds|
        invariant g == SelectGroup(Sizes(Memory()), flushThreshold, tiering)
        invariant TierLoop(m1, flushThreshold, tiering).0 == TierLoop(Memory(), flushThreshold, tiering).0
        invariant TierLoop(m1, flushThreshold, tiering).1 == moved + TierLoop(Memory(), flushThreshold, tiering).1
        invariant TierMerges(m1, flushThreshold, tiering) == merges + TierMerges(Memory(), flushThreshold, tiering)
        invariant merges == 0 ==> dir.segs == old(dir.segs)
        decreases |segments|
      {
        SelectedIsGroup(Memory(), flushThreshold, tiering);
        MergeCount(Memory(), g.value);
        var n := MergeSegmentsAt(g.value);
        if n.None? { return false, merges + 1, moved; }
        merges, moved := merges + 1, moved + n.value;
        g := NextMergeGroup(Sizes(Memory()), flushThreshold, tiering);
      }
      ok := true;
    }

    /** `compact_tiers`: merge while a bucket is eligible, then checkpoint if anything
        merged. */
    method CompactSizeTiers() returns (r: Outcome, merges: nat, moved: nat)
      requires Valid()
      modifies this, dir
      ensures Valid() && SameHistory()
      ensures |old(Memory()).segments| == |old(Memory()).segmentIds|
      ensures r.Done? ==> poisoned == old(poisoned) && (!old(logDead) ==> !logDead)
      ensures r.Done? ==> Memory() == CompactTiers(old(Memory()), flushThreshold, tiering)
      ensures r.Done? ==> moved == TierLoop(Seal(old(Memory())), flushThreshold, tiering).1
                          && merges == TierMerges(Seal(old(Memory())), flushThreshold, tiering)
      ensures r.Done? ==> if merges > 0 then NewCommit() else SameCommit()
      ensures r.Failed? ==> old(poisoned) || (Refused() && NotSaved(r.error))
    {
      assert |segments| == |segmentIds| by { dir.Invariant(); }
      var ok;
      ok, merges, moved := TiersMemory();
      r := Failed(WriteFailed);
      if ok { r := CheckpointIf(merges > 0); }
    }

    /** The in-memory half of `compact_tiers`. */
    method TiersMemory() returns (ok: bool, merges: nat, moved: nat)
      requires Linked() && |segments| == |segmentIds|
      modifies this
      modifies dir`segs, dir`platter, dir`faults, dir`events, dir`trace, dir`world
      ensures Linked() && Undisturbed() && buffer == [] && (!ok ==> Refused())
      ensures ok ==> Memory() == CompactTiers(old(Memory()), flushThreshold, tiering)
                     && moved == TierLoop(Seal(old(Memory())), flushThreshold, tiering).1
                     && merges == TierMerges(Seal(old(Memory())), flushThreshold, tiering)
      ensures merges == 0 ==> dir.segs == old(dir.segs)
    {
      SealStep();
      SealEmpties(old(Memory()));
      ok, merges, moved := RunTiers();
    }

    /** The end of a compaction: a checkpoint if it merged anything. */
    method CheckpointIf(merged: bool) returns (r: Outcome)
      requires Valid() && buffer == []
      modifies this, dir
      ensures Valid() && SameHistory() && Memory() == old(Memory())
      ensures !merged ==> r == Done && SameCommit() && poisoned == old(poisoned) && logDead == old(logDead)
      ensures merged && r.Done? ==> NewCommit() && Collected(old(epoch)) && !old(poisoned)
      ensures r.Failed? ==> old(poisoned) || (Refused() && NotSaved(r.error))
    {
      SealedAgain(Memory());
      r := Done;
      if merged { r := Checkpoint(); }
    }

    /** `force_merge_to`: consolidate to at most `maxSegments`. */
    method ForceMergeTo(maxSegments: nat) returns (r: Outcome)
      requires Valid()
      modifies this, dir
      ensures Valid() && SameHistory()
      ensures |old(Memory()).segments| == |old(Memory()).segmentIds|
      ensures r.Done? && maxSegments >= 2 ==> Memory() == ForceLoop(Seal(old(Memory())), maxSegments, tiering.maxMerge)
      ensures r.Done? && maxSegments < 2 ==> Memory() == Compact(old(Memory()))
      ensures r.Done? ==>
                if maxSegments < 2 || |Seal(old(Memory())).segments| > maxSegments
                then NewCommit() else SameCommit()
      ensures r.Failed? ==> old(poisoned) || (Refused() && NotSaved(r.error))
    {
      if maxSegments <= 1 { r := FullCompact(); } else { r := ConsolidateTo(maxSegments); }
    }

    /** `force_merge_to` with room for more than one segment. */
    method ConsolidateTo(maxSegments: nat) returns (r: Outcome)
      requires Valid() && maxSegments >= 2
      modifies this, dir
      ensures Valid() && SameHistory()
      ensures |old(Memory()).segments| == |old(Memory()).segmentIds|
      ensures r.Done? ==> Memory() == ForceLoop(Seal(old(Memory())), maxSegments, tiering.maxMerge)
      ensures r.Done? ==> if |Seal(old(Memory())).segments| > maxSegments then NewCommit()
                          else SameCommit()
      ensures r.Failed? ==> old(poisoned) || (Refused() && NotSaved(r.error))
    {
      assert |segments| == |segmentIds| by { dir.Invariant(); }
      var ok, merges := ForceMemory(maxSegments);
      r := Failed(WriteFailed);
      if ok { r := CheckpointIf(merges > 0); }
    }

    /** The in-memory half of `force_merge_to`. */
    method ForceMemory(maxSegments: nat) returns (ok: bool, merges: nat)
      requires Linked() && |segments| == |segmentIds| && maxSegments >= 2
      modifies this
      modifies dir`segs, dir`platter, dir`faults, dir`events, dir`trace, dir`world
      ensures Linked() && Undisturbed() && buffer == [] && (!ok ==> Refused())
      ensures ok ==> Memory() == ForceLoop(Seal(old(Memory())), maxSegments, tiering.maxMerge)
                     && (merges > 0 <==> |Seal(old(Memory())).segments| > maxSegments)
      ensures merges == 0 && ok ==> dir.segs == old(dir.segs)
    {
      SealStep();
      SealEmpties(old(Memory()));
      ok, merges := RunForce(maxSegments);
    }

    /** Merge the smallest segments while there are too many. */
    method RunForce(maxSegments: nat) returns (ok: bool, merges: nat)
      requires Linked() && |segments| == |segmentIds| && maxSegments >= 2 && buffer == []
      modifies this
      modifies dir`segs, dir`platter, dir`faults, dir`events, dir`trace, dir`world
      ensures Linked() && Undisturbed() && buffer == [] && (!ok ==> Refused())
      ensures ok ==> Memory() == ForceLoop(old(Memory()), maxSegments, tiering.maxMerge)
                     && (merges > 0 <==> |old(segments)| > maxSegments)
      ensures merges == 0 && ok ==> dir.segs == old(dir.segs)
    {
      ghost var m1 := Memory();
      merges := 0;
      while |segments| > maxSegments
        invariant Linked() && Undisturbed() && buffer == []
        invariant |segments| == |segmentIds|
        invariant ForceLoop(m1, maxSegments, tiering.maxMerge) == ForceLoop(Memory(), maxSegments, tiering.maxMerge)
        invariant if merges == 0 then dir.segs == old(dir.segs) && |segments| == |old(segments)|
                  else |old(segments)| > maxSegments
        decreases |segments|
      {
        var group := ForceGroup(Sizes(Memory()), maxSegments, tiering.maxMerge);
        ForceGroupOk(Memory(), maxSegments, tiering.maxMerge);
        MergeCount(Memory(), group);
        var n := MergeSegmentsAt(group);
        if n.None? { return false, merges; }
        merges := merges + 1;
      }
      ok := true;
    }

    method PurgeTables()
      requires Linked() && AllLive(Memory())
      modifies this`tombstones, this`superseded, dir`events, dir`trace, dir`world
      ensures Linked() && Undisturbed() && Memory() == Purged(old(Memory()))
    {
      dir.Advance(Purge);
      tombstones := {};
      superseded := map[];
    }

    lemma MergedAllLive()
      requires Linked() && |segments| == |segmentIds|
      ensures AllLive(MergeAll(Memory()))
    {
      dir.Invariant();
      MergeAllLive(Memory(), FoldAt(dir.world.hist, memAt));
    }

    lemma AllIsGroup(m: Mem)
      requires |m.segments| == |m.segmentIds|
      ensures Group(m, UpTo(|m.segments|))
    {
    }

    /** Merge every segment, if there is anything to rewrite. */
    method MergeEverything() returns (ok: bool)
      requires Linked() && |segments| == |segmentIds|
      modifies this
      modifies dir`segs, dir`platter, dir`faults, dir`events, dir`trace, dir`world
      ensures Linked() && Undisturbed()
      ensures if ok then Memory() == MergeAll(old(Memory())) && AllLive(Memory()) else Refused()
    {
      ok := true;
      MergedAllLive();
      AllIsGroup(Memory());
      var hasDead := tombstones != {} || superseded != map[];
      if |segments| > 1 || (|segments| == 1 && hasDead) {
        var n := MergeSegmentsAt(UpTo(|segments|));
        ok := n.Some?;
      }
    }

    /** The in-memory half of `compact`: seal, merge everything, purge both tables. */
    method CompactMemory() returns (ok: bool)
      requires Linked() && |segments| == |segmentIds|
      modifies this
      modifies dir`segs, dir`platter, dir`faults, dir`events, dir`trace, dir`world
      ensures Linked() && Undisturbed()
      ensures if ok then Memory() == Compact(old(Memory())) else Refused()
    {
      SealStep();
      ok := MergeEverything();
      if ok { PurgeTables(); }
    }

    /** `compact`: merge all segments into one, purge both tables, checkpoint. */
    method FullCompact() returns (r: Outcome)
      requires Valid()
      modifies this, dir
      ensures Valid() && SameHistory()
      ensures |old(Memory()).segments| == |old(Memory()).segmentIds|
      ensures r.Done? ==> Memory() == Compact(old(Memory())) && NewCommit()
      ensures r.Failed? ==> old(poisoned) || (Refused() && NotSaved(r.error))
    {
      assert |segments| == |segmentIds| && MemInv(Memory()) by { dir.Invariant(); }
      CompactedIsSealed(Memory());
      var ok := CompactMemory();
      r := Failed(WriteFailed);
      if ok { r := CheckpointIf(true); }
    }

    lemma CompactedIsSealed(m: Mem)
      requires |m.segments| == |m.segmentIds|
      ensures Compact(m).buffer == [] && Seal(Compact(m)) == Compact(m)
    {
    }

    /** The in-memory half of `reclaim_tombstones`: seal, scan, and merge what is sparse. */
    method ReclaimMemory(minLiveRatio: real, reports: Reports) returns (ok: bool, merged: bool)
      requires Linked() && |segments| == |segmentIds|
      modifies this
      modifies dir`segs, dir`platter, dir`faults, dir`events, dir`trace, dir`world
      ensures Linked() && Undisturbed()
      ensures !ok ==> Refused()
      ensures ok ==> Memory() == if Unavailable(Seal(old(Memory())), reports) then Seal(old(Memory()))
                                 else Reclaim(old(Memory()), minLiveRatio)
      ensures buffer == [] && (!merged ==> ok && dir.segs == old(dir.segs))
      ensures ok ==> (merged <==> Reclaimable(Seal(old(Memory())), minLiveRatio, reports))
    {
      SealStep();
      SealEmpties(old(Memory()));
      ok, merged := true, false;
      var targets := SparseSegments(minLiveRatio, reports);
      if targets.Some? && targets.value != [] {
        var n := MergeSegmentsAt(targets.value);
        ok, merged := n.Some?, true;
      }
    }

    /** The scan over the current segments. */
    method SparseSegments(minLiveRatio: real, reports: Reports) returns (targets: Option<seq<nat>>)
      requires |segments| == |segmentIds|
      ensures targets == if Unavailable(Memory(), reports) then None
                         else Some(Targets(Memory(), minLiveRatio, |Memory().segments|))
      ensures targets.Some? ==> Group(Memory(), targets.value)
      ensures targets.Some? && targets.value != [] <==> Reclaimable(Memory(), minLiveRatio, reports)
    {
      targets := FindTargets(Memory(), minLiveRatio, reports);
      TargetsOk(Memory(), minLiveRatio, |segments|);
      if targets.Some? && targets.value != [] { assert targets.value[0] in targets.value; }
    }

    /** `reclaim_tombstones`: rewrite the segments below the live ratio. A store that
        cannot count a segment's live items only has its buffer sealed. */
    method ReclaimTombstones(minLiveRatio: real, reports: Reports) returns (r: Outcome)
      requires Valid()
      modifies this, dir
      ensures Valid() && SameHistory()
      ensures |old(Memory()).segments| == |old(Memory()).segmentIds|
      ensures r.Done? ==> Memory() == if Unavailable(Seal(old(Memory())), reports) then Seal(old(Memory()))
                                      else Reclaim(old(Memory()), minLiveRatio)
      ensures r.Done? ==> if Reclaimable(Seal(old(Memory())), minLiveRatio, reports)
                          then NewCommit() else SameCommit()
      ensures r.Failed? ==> old(poisoned) || (Refused() && NotSaved(r.error))
    {
      assert |segments| == |segmentIds| by { dir.Invariant(); }
      var ok, merged := ReclaimMemory(minLiveRatio, reports);
      r := Failed(WriteFailed);
      if ok { r := CheckpointIf(merged); }
    }

    // -------------------------------------------------------------------------
    // add, delete, extend
    // -------------------------------------------------------------------------

    /** The bookkeeping that a log action leaves alone. */
    twostate predicate OnlyLogged()
      reads this, dir
    {
      && dir.world.done == old(dir.world.done)
      && old(dir.events) <= dir.events && old(dir.faults) <= dir.faults
      && SameOps(old(dir.world.hist), dir.world.hist)
      && (forall p: nat :: p < |old(dir.world.hist)| && old(dir.world.hist)[p].must ==> dir.world.hist[p].must)
      && dir.manifest == old(dir.manifest) && dir.segs == old(dir.segs)
      && CurLog(dir.world.disk).synced >= CurLog(old(dir.world.disk)).synced
    }

    /** Return an error without touching the log. */
    ghost method RefuseOp(op: Op)
      requires Linked()
      modifies dir`events, dir`trace, dir`world
      ensures Linked() && OnlyLogged() && dir.world.logAt == old(dir.world.logAt)
      ensures dir.world.hist == old(dir.world.hist) + [Rec(op, false)]
      ensures CurLog(dir.world.disk) == CurLog(old(dir.world.disk))
    {
      dir.Advance(Refuse(op));
    }

    /** Append one record to the log; a failed append or an earlier log failure is final
        until the next checkpoint. */
    method LogOp(op: Op) returns (ok: bool)
      requires Linked() && !poisoned && (!logDead ==> Applied(dir.world) == |dir.world.logAt|)
      modifies this`logDead, dir
      ensures Linked() && OnlyLogged()
      ensures dir.world.hist == old(dir.world.hist) + [Rec(op, false)]
      ensures CurLog(dir.world.disk).synced == CurLog(old(dir.world.disk)).synced
      ensures ok ==> !logDead && !old(logDead) && dir.world.logAt == old(dir.world.logAt) + [|old(dir.world.hist)|]
      ensures ok ==> CurLog(dir.world.disk).recs == CurLog(old(dir.world.disk)).recs + [op]
      ensures !ok ==> logDead && (old(logDead) || Refused())
    {
      if logDead {
        RefuseOp(op);
        return false;
      }
      var fault := dir.AppendRecord(epoch, op);
      EpochIsCurrent();
      dir.Advance(Append(op, fault));
      ok := fault.Success?;
      if !ok { logDead := true; }
    }

    /** Unless poisoned, the writer's epoch is the manifest's. */
    lemma EpochIsCurrent()
      requires dir.Tracked() && dir.world.writer == Some(Self()) && !poisoned
      ensures epoch == Epoch(dir.world.disk)
    {
      dir.Invariant();
    }

    /** `sync_wal`: everything logged so far becomes durable, or the log is dead. */
    method SyncLogged() returns (ok: bool)
      requires Linked() && !poisoned
      modifies this`logDead, dir
      ensures Linked() && OnlyLogged() && dir.world.logAt == old(dir.world.logAt)
      ensures |dir.world.hist| == |old(dir.world.hist)|
      ensures CurLog(dir.world.disk).recs == CurLog(old(dir.world.disk)).recs
      ensures ok ==> !logDead && CurLog(dir.world.disk).synced == |CurLog(dir.world.disk).recs|
      ensures ok ==> forall p: nat :: p < |dir.world.hist| && p in dir.world.logAt ==> dir.world.hist[p].must
      ensures !ok ==> logDead && CurLog(dir.world.disk) == CurLog(old(dir.world.disk)) && (old(logDead) || Refused())
    {
      if logDead { return false; }
      assert CurLog(dir.world.disk).synced <= |CurLog(dir.world.disk).recs| by { dir.Invariant(); }
      ok := dir.SyncLog(epoch);
      EpochIsCurrent();
      dir.Advance(Sync(ok));
      if !ok { logDead := true; }
    }

    /** The step that `ApplyNext` performs. */
    ghost method AdvanceApply(op: Op)
      requires Linked() && !poisoned && 0 <= Applied(dir.world) < |dir.world.logAt| == |CurLog(dir.world.disk).recs|
      requires CurLog(dir.world.disk).recs[Applied(dir.world)] == op
      modifies dir`events, dir`trace, dir`world
      ensures dir.Valid() && old(dir.events) <= dir.events
      ensures dir.world == SetWriter(old(dir.world),
                                     Self().(mem := Apply(Memory(), op),
                                             memAt := memAt + [old(dir.world.logAt[Applied(dir.world)])]))
    {
      dir.Advance(ApplyLogged);
    }

    /** Apply the logged operation that memory does not have yet. */
    method ApplyNext(op: Op)
      requires Linked() && !poisoned && 0 <= Applied(dir.world) < |dir.world.logAt| == |CurLog(dir.world.disk).recs|
      requires CurLog(dir.world.disk).recs[Applied(dir.world)] == op
      modifies this, dir`events, dir`trace, dir`world
      ensures Linked() && Memory() == Apply(old(Memory()), op)
      ensures dir.world.(writer := old(dir.world.writer)) == old(dir.world) && old(dir.events) <= dir.events
      ensures memAt == old(memAt) + [dir.world.logAt[old(Applied(dir.world))]]
      ensures stale == old(stale) && poisoned == old(poisoned) && logDead == old(logDead)
    {
      ghost var p := dir.world.logAt[Applied(dir.world)];
      AdvanceApply(op);
      ApplyOp(op);
      memAt := memAt + [p];
    }

    /** The positions in memory are positions of the history. */
    lemma MemoryWithin()
      requires Linked()
      ensures Within(memAt, |dir.world.hist|) && Represents(Memory(), FoldAt(dir.world.hist, memAt)) && MemInv(Memory())
      ensures |dir.world.logAt| == |CurLog(dir.world.disk).recs|
    {
      dir.Invariant();
    }

    /** The map survives any change of the log. */
    lemma SameMap(h: seq<Rec>)
      requires Within(memAt, |h|) && SameOps(h, dir.world.hist) && Linked()
      ensures Map() == FoldAt(h, memAt)
    {
      FoldStable(h, dir.world.hist, memAt);
    }

    /** The record of `op` is logged and synced, and is the next to apply. */
    ghost predicate ReadyToApply(op: Op)
      reads this, dir
    {
      && Linked() && !poisoned && !logDead
      && 0 <= Applied(dir.world) < |dir.world.logAt| == |CurLog(dir.world.disk).recs|
      && Applied(dir.world) == |dir.world.logAt| - 1
      && CurLog(dir.world.disk).recs[Applied(dir.world)] == op
    }

    /** Log and sync one operation. */
    method LogAndSync(op: Op) returns (ok: bool)
      requires Valid() && !poisoned
      modifies this`logDead, dir
      ensures Linked() && OnlyLogged() && !poisoned
      ensures |dir.world.hist| == |old(dir.world.hist)| + 1 && dir.world.hist[|old(dir.world.hist)|].op == op
      ensures ok ==> ReadyToApply(op) && dir.world.hist[|old(dir.world.hist)|].must
      ensures ok ==> dir.world.logAt == old(dir.world.logAt) + [|old(dir.world.hist)|]
      ensures ok ==> CurLog(dir.world.disk).recs == CurLog(old(dir.world.disk)).recs + [op]
                     && CurLog(dir.world.disk).synced == |CurLog(dir.world.disk).recs|
      ensures !ok ==> logDead && CurLog(dir.world.disk).synced <= Applied(dir.world) && (old(logDead) || Refused())
    {
      MemoryWithin();
      ok := LogOp(op);
      if ok {
        assert dir.world.logAt[|dir.world.logAt| - 1] == |old(dir.world.hist)|;
        ok := SyncLogged();
      }
    }

    /** The part `add` and `delete` share: check, log, sync, apply. */
    method WriteOp(op: Op) returns (r: Outcome)
      requires Valid()
      modifies this, dir
      ensures Valid() && Issued(old(dir.world.hist), [op], dir.world.hist) && old(dir.events) <= dir.events
      ensures old(dir.faults) <= dir.faults && (r.Failed? ==> old(poisoned) || old(logDead) || Refused())
      ensures r.Failed? ==> r.error == if old(poisoned) then Poisoned else LogFailed
      ensures old(poisoned) ==> r == Failed(Poisoned)
      ensures r.Done? ==> !poisoned && !logDead && dir.world.hist[|old(dir.world.hist)|].must && epoch == old(epoch)
      ensures r.Done? ==> Memory() == Apply(old(Memory()), op) && Map() == Step(old(Map()), op)
      ensures r.Done? ==> dir.manifest == old(dir.manifest) && dir.segs == old(dir.segs)
                          && CurLog(dir.world.disk).recs == CurLog(old(dir.world.disk)).recs + [op]
      ensures r.Failed? ==> Memory() == old(Memory()) && Map() == old(Map()) && poisoned == old(poisoned)
    {
      if poisoned {
        RefuseWrite(op);
        return Failed(Poisoned);
      }
      EpochIsCurrent();
      var ok := WriteLive(op);
      r := if ok then Done else Failed(LogFailed);
      EpochIsCurrent();
    }

    /** Log, sync and apply, unless the log fails. */
    method WriteLive(op: Op) returns (ok: bool)
      requires Valid() && !poisoned
      modifies this, dir
      ensures Valid() && !poisoned && Issued(old(dir.world.hist), [op], dir.world.hist)
      ensures old(dir.events) <= dir.events && old(dir.faults) <= dir.faults
      ensures !ok ==> (old(logDead) || Refused()) && Memory() == old(Memory()) && Map() == old(Map())
      ensures dir.manifest == old(dir.manifest)
      ensures ok ==> !logDead && dir.world.hist[|old(dir.world.hist)|].must
      ensures ok ==> Memory() == Apply(old(Memory()), op) && Map() == Step(old(Map()), op)
      ensures ok ==> dir.manifest == old(dir.manifest) && dir.segs == old(dir.segs)
                     && CurLog(dir.world.disk).recs == CurLog(old(dir.world.disk)).recs + [op]
    {
      ghost var h := dir.world.hist;
      MemoryWithin();
      ok := LogAndSync(op);
      SameMap(h);
      if ok { ApplyLast(op); }
    }

    /** What a poisoned store does with a write. */
    ghost method RefuseWrite(op: Op)
      requires Valid() && poisoned
      modifies dir`events, dir`trace, dir`world
      ensures Valid() && Issued(old(dir.world.hist), [op], dir.world.hist) && old(dir.events) <= dir.events
      ensures Map() == old(Map())
    {
      MemoryWithin();
      RefuseOp(op);
      SameMap(old(dir.world.hist));
    }

    /** Apply the one operation that is logged and synced but not yet in memory. */
    method ApplyLast(op: Op)
      requires ReadyToApply(op) && Within(memAt, |dir.world.hist|)
      requires dir.world.logAt[|dir.world.logAt| - 1] < |dir.world.hist|
      requires dir.world.hist[dir.world.logAt[|dir.world.logAt| - 1]].op == op
      modifies this, dir`events, dir`trace, dir`world
      ensures Linked() && Memory() == Apply(old(Memory()), op) && Map() == Step(old(Map()), op)
      ensures dir.world.(writer := old(dir.world.writer)) == old(dir.world) && old(dir.events) <= dir.events
      ensures Applied(dir.world) == |dir.world.logAt|
      ensures stale == old(stale) && !poisoned && !logDead
    {
      FoldNext(dir.world.hist, memAt, dir.world.logAt[|dir.world.logAt| - 1]);
      ApplyNext(op);
    }

    /** Memory after an add: seal a full buffer and, with auto-compaction, merge. */
    function AfterAdd(m: Mem, op: Op): Mem
      requires |m.segments| == |m.segmentIds|
    {
      if autoCompact then AddAuto(m, op, flushThreshold, tiering) else ApplySeal(m, op, flushThreshold)
    }

    /** The same from the state in which the operation is already applied. */
    function AfterApply(m: Mem): Mem
      requires |m.segments| == |m.segmentIds|
    {
      if |m.buffer| < flushThreshold then m
      else if autoCompact then TierLoop(Seal(m), flushThreshold, tiering).0
      else Seal(m)
    }

    lemma AddIsApplied(m: Mem, op: Op)
      requires |m.segments| == |m.segmentIds| && op.Add?
      ensures |Apply(m, op).segments| == |Apply(m, op).segmentIds| && AfterAdd(m, op) == AfterApply(Apply(m, op))
    {
      ApplyTables(m, op);
    }

    /** The guard of the merges that `add` triggers, on the state with the item applied. */
    predicate MergeFollows(m: Mem) { autoCompact && MergeDue(m, flushThreshold, tiering) }

    /** Every record from position `from` on is synced or in the current log. */
    ghost predicate CoveredFrom(from: nat)
      reads dir
    {
      forall p: nat :: from <= p < |dir.world.hist| ==> dir.world.hist[p].must || p in dir.world.logAt
    }

    /** The end of an add: seal a full buffer, then merge if a tier is eligible. Inside
        `extend` the log is synced before a merge rewrites what it covers. */
    method SealIfFull(syncFirst: bool, ghost from: nat) returns (r: Outcome)
      requires Valid() && !poisoned && !logDead && (if syncFirst then CoveredFrom(from) else true)
      modifies this, dir
      ensures Valid() && memAt == old(memAt) && old(dir.events) <= dir.events
      ensures old(dir.faults) <= dir.faults && (r.Failed? ==> Refused() && MergeFollows(old(Memory())))
      ensures r.Failed? ==> if NotSaved(r.error) then syncFirst ==> SyncedFrom(from)
                            else syncFirst && r.error == LogFailed
      ensures Issued(old(dir.world.hist), [], dir.world.hist)
      ensures |old(Memory()).segments| == |old(Memory()).segmentIds|
      ensures r.Done? ==> !poisoned && !logDead && Memory() == AfterApply(old(Memory()))
      ensures r.Done? ==> if MergeFollows(old(Memory())) then NewCommit() else SameCommit()
      ensures r.Done? && syncFirst ==> CoveredFrom(from)
      ensures !syncFirst ==> dir.world.hist == old(dir.world.hist)
      ensures r.Done? && !MergeFollows(old(Memory())) ==> CurLog(dir.world.disk) == CurLog(old(dir.world.disk))
    {
      assert |segments| == |segmentIds| by { dir.Invariant(); }
      if |buffer| < flushThreshold { return Done; }
      SealStep();
      if !autoCompact { return Done; }
      SealEmpties(old(Memory()));
      r := CompactIfEligible(syncFirst, from);
    }

    /** The auto-compaction of a sealed store. */
    method CompactIfEligible(syncFirst: bool, ghost from: nat) returns (r: Outcome)
      requires Valid() && !poisoned && !logDead && buffer == [] && |segments| == |segmentIds|
      requires if syncFirst then CoveredFrom(from) else true
      modifies this, dir
      ensures Valid() && memAt == old(memAt) && old(dir.events) <= dir.events
      ensures old(dir.faults) <= dir.faults && (r.Failed? ==> Refused())
      ensures r.Failed? ==> SelectGroup(Sizes(old(Memory())), flushThreshold, tiering).Some?
      ensures r.Failed? ==> if NotSaved(r.error) then syncFirst ==> SyncedFrom(from)
                            else syncFirst && r.error == LogFailed
      ensures Issued(old(dir.world.hist), [], dir.world.hist)
      ensures r.Done? ==> !poisoned && !logDead && Memory() == TierLoop(old(Memory()), flushThreshold, tiering).0
      ensures r.Done? ==> if SelectGroup(Sizes(old(Memory())), flushThreshold, tiering).Some? then NewCommit()
                          else SameCommit()
      ensures r.Done? && syncFirst ==> CoveredFrom(from)
      ensures !syncFirst ==> dir.world.hist == old(dir.world.hist)
    {
      var g := NextMergeGroup(Sizes(Memory()), flushThreshold, tiering);
      if g.None? { return Done; }
      if syncFirst {
        var ok := SyncBatch(from);
        if !ok { return Failed(LogFailed); }
      }
      r := CompactSealed();
    }

    /** `compact_tiers` on an empty buffer. */
    method CompactSealed() returns (r: Outcome)
      requires Valid() && !poisoned && !logDead && buffer == [] && |segments| == |segmentIds|
      modifies this, dir
      ensures Valid() && SameHistory() && (r.Failed? ==> Refused() && NotSaved(r.error))
      ensures r.Done? ==> !poisoned && !logDead && Memory() == TierLoop(old(Memory()), flushThreshold, tiering).0
      ensures r.Done? && SelectGroup(Sizes(old(Memory())), flushThreshold, tiering).Some? ==> NewCommit()
    {
      SealedAgain(Memory());
      var merges, moved;
      r, merges, moved := CompactSizeTiers();
    }

    lemma SealedAgain(m: Mem)
      ensures m.buffer == [] ==> Seal(m) == m
    {
    }

    /** Make everything logged durable; from position `from` on nothing is left to sync. */
    method SyncBatch(ghost from: nat) returns (ok: bool)
      requires Valid() && !poisoned && !logDead && CoveredFrom(from)
      modifies this`logDead, dir
      ensures Valid() && old(dir.events) <= dir.events && Map() == old(Map())
      ensures Issued(old(dir.world.hist), [], dir.world.hist)
      ensures old(dir.faults) <= dir.faults
      ensures dir.manifest == old(dir.manifest) && dir.segs == old(dir.segs)
      ensures CurLog(dir.world.disk).recs == CurLog(old(dir.world.disk)).recs
      ensures if ok then !logDead && SyncedFrom(from) else logDead && Refused()
    {
      ghost var h := dir.world.hist;
      MemoryWithin();
      ok := SyncLogged();
      SameMap(h);
    }

    ghost predicate SyncedFrom(from: nat)
      reads dir
    {
      forall p: nat :: from <= p < |dir.world.hist| ==> dir.world.hist[p].must
    }

    /** `add`. Unless auto-compaction finds a merge due, an error means that nothing was
        added. Otherwise the merges may fail when the item is already durable and in the map. */
    method AddItem(id: Id, item: Item) returns (r: Outcome)
      requires Valid()
      modifies this, dir
      ensures Valid() && Issued(old(dir.world.hist), [Add(id, item)], dir.world.hist) && old(dir.events) <= dir.events
      ensures old(dir.faults) <= dir.faults && (r.Failed? ==> old(poisoned) || old(logDead) || Refused())
      ensures r == Failed(Poisoned) <==> old(poisoned)
      ensures r.Done? ==> dir.world.hist[|old(dir.world.hist)|].must && Map() == Step(old(Map()), Add(id, item))
      ensures |old(Memory()).segments| == |old(Memory()).segmentIds|
      ensures r.Done? ==> Memory() == AfterAdd(old(Memory()), Add(id, item))
      ensures r.Failed? ==>
                if NotSaved(r.error) then
                  Map() == Step(old(Map()), Add(id, item)) && dir.world.hist[|old(dir.world.hist)|].must
                else Memory() == old(Memory()) && Map() == old(Map())
      ensures r.Failed? && !MergeFollows(Apply(old(Memory()), Add(id, item))) ==> Memory() == old(Memory())
      ensures r.Done? ==> if MergeFollows(Apply(old(Memory()), Add(id, item))) then NewCommit()
                          else OnlyRecorded([Add(id, item)])
    {
      assert |segments| == |segmentIds| by { dir.Invariant(); }
      r := WriteOp(Add(id, item));
      if r.Failed? { return; }
      AddIsApplied(old(Memory()), Add(id, item));
      r := SealIfFull(false, 0);
    }

    /** `delete`. */
    method DeleteItem(id: Id) returns (r: Outcome)
      requires Valid()
      modifies this, dir
      ensures Valid() && Issued(old(dir.world.hist), [Delete(id)], dir.world.hist) && old(dir.events) <= dir.events
      ensures old(dir.faults) <= dir.faults && (r.Failed? ==> old(poisoned) || old(logDead) || Refused())
      ensures old(poisoned) ==> r == Failed(Poisoned)
      ensures r.Done? ==> dir.world.hist[|old(dir.world.hist)|].must && Map() == Step(old(Map()), Delete(id))
      ensures r.Done? ==> Memory() == Apply(old(Memory()), Delete(id))
      ensures r.Failed? ==> Memory() == old(Memory()) && Map() == old(Map())
      ensures r.Failed? ==> r.error == if old(poisoned) then Poisoned else LogFailed
      ensures r.Done? ==> dir.manifest == old(dir.manifest) && dir.segs == old(dir.segs)
                          && CurLog(dir.world.disk).recs == CurLog(old(dir.world.disk)).recs + [Delete(id)]
    {
      r := WriteOp(Delete(id));
    }

    /** Memory after a run of adds. */
    function AfterAdds(m: Mem, items: seq<Entry>): (r: Mem)
      requires |m.segments| == |m.segmentIds|
      ensures |r.segments| == |r.segmentIds|
    {
      if items == [] then m
      else
        var n := |items| - 1;
        var m1 := AfterAdds(m, items[..n]);
        var op := Add(items[n].0, items[n].1);
        ApplyTables(m1, op);
        AddShape(m1, op);
        AfterAdd(m1, op)
    }

    lemma AfterAddsNext(m: Mem, items: seq<Entry>, i: nat)
      requires |m.segments| == |m.segmentIds| && i < |items|
      ensures AfterAdds(m, items[..i + 1]) == AfterAdd(AfterAdds(m, items[..i]), Add(items[i].0, items[i].1))
    {
      assert items[..i + 1][..i] == items[..i];
    }

    lemma AddShape(m: Mem, op: Op)
      requires |m.segments| == |m.segmentIds|
      ensures |AfterAdd(m, op).segments| == |AfterAdd(m, op).segmentIds|
    {
      ApplyTables(m, op);
      SealShape(Apply(m, op));
      if autoCompact { TierShape(Seal(Apply(m, op)), flushThreshold, tiering); }
    }

    lemma SealShape(m: Mem)
      requires |m.segments| == |m.segmentIds|
      ensures |Seal(m).segments| == |Seal(m).segmentIds|
    {
    }

    /** One item of `extend`: log it, apply it, and seal and merge if the buffer is full;
        the sync is left to the end of the batch. */
    method ExtendOne(op: Op, ghost from: nat) returns (r: Outcome, ghost applied: bool)
      requires Valid() && !poisoned && from <= |dir.world.hist| && CoveredFrom(from) && op.Add?
      modifies this, dir
      ensures Valid() && Issued(old(dir.world.hist), [op], dir.world.hist) && old(dir.events) <= dir.events
      ensures old(dir.faults) <= dir.faults && (r.Failed? ==> old(logDead) || Refused())
      ensures |old(Memory()).segments| == |old(Memory()).segmentIds|
      ensures r.Done? ==> !poisoned && !logDead && CoveredFrom(from)
      ensures r.Done? ==> applied && Memory() == AfterAdd(old(Memory()), op)
      ensures Map() == if applied then Step(old(Map()), op) else old(Map())
      ensures r.Failed? ==> r.error == LogFailed
                            || (NotSaved(r.error) && applied && SyncedFrom(from)
                                && MergeFollows(Apply(old(Memory()), op)))
      ensures r.Done? ==> if MergeFollows(Apply(old(Memory()), op)) then AtCheckpoint() else OnlyRecorded([op])
    {
      ghost var h := dir.world.hist;
      MemoryWithin();
      var ok := LogAndApply(op, from);
      applied := ok;
      if !ok { return Failed(LogFailed), applied; }
      ghost var h1 := dir.world.hist;
      ApplyTables(old(Memory()), op);
      r := SealIfFull(true, from);
      IssuedThen(h, [op], h1, [], dir.world.hist);
      SameMap(h1);
    }

    /** On disk, the log got these records and nothing else changed. */
    twostate predicate OnlyRecorded(ops: seq<Op>)
      reads this, dir
    {
      && dir.manifest == old(dir.manifest) && dir.segs == old(dir.segs)
      && CurLog(dir.world.disk).recs == CurLog(old(dir.world.disk)).recs + ops
    }

    /** Log one operation, leaving it unsynced and not yet applied. */
    method LogUnsynced(op: Op, ghost from: nat) returns (ok: bool)
      requires Valid() && !poisoned && from <= |dir.world.hist| && CoveredFrom(from)
      modifies this`logDead, dir
      ensures Linked() && !poisoned && Issued(old(dir.world.hist), [op], dir.world.hist)
      ensures old(dir.events) <= dir.events
      ensures old(dir.faults) <= dir.faults && (!ok ==> old(logDead) || Refused())
      ensures Within(memAt, |dir.world.hist|) && Map() == old(Map())
      ensures if ok then ReadyToApply(op) && CoveredFrom(from) else Valid()
      ensures ok ==> dir.world.logAt[|dir.world.logAt| - 1] == |old(dir.world.hist)|
      ensures |dir.world.hist| == |old(dir.world.hist)| + 1 && dir.world.hist[|old(dir.world.hist)|].op == op
      ensures CurLog(dir.world.disk).synced <= Applied(dir.world)
      ensures ok ==> OnlyRecorded([op])
    {
      ghost var h := dir.world.hist;
      MemoryWithin();
      ok := LogOp(op);
      SameMap(h);
      MemoryWithin();
    }

    /** Log one operation and apply it, leaving it unsynced. */
    method LogAndApply(op: Op, ghost from: nat) returns (ok: bool)
      requires Valid() && !poisoned && from <= |dir.world.hist| && CoveredFrom(from)
      modifies this, dir
      ensures Valid() && !poisoned && Issued(old(dir.world.hist), [op], dir.world.hist) && old(dir.events) <= dir.events
      ensures Within(memAt, |dir.world.hist|)
      ensures old(dir.faults) <= dir.faults && (!ok ==> old(logDead) || Refused())
      ensures if ok then !logDead && CoveredFrom(from) && Memory() == Apply(old(Memory()), op)
                         && Map() == Step(old(Map()), op)
              else Memory() == old(Memory()) && Map() == old(Map())
      ensures ok ==> OnlyRecorded([op])
    {
      ok := LogUnsynced(op, from);
      if ok {
        ApplyLast(op);
        MemoryWithin();
      }
    }

    /** `extend`: a batch with one sync at its end. An error leaves a prefix of it applied. */
    method ExtendItems(items: seq<Entry>) returns (r: Outcome)
      requires Valid()
      modifies this, dir
      ensures Valid() && old(dir.events) <= dir.events
      ensures old(dir.faults) <= dir.faults && (r.Failed? ==> old(poisoned) || old(logDead) || Refused())
      ensures r == Failed(Poisoned) <==> old(poisoned)
      ensures |old(Memory()).segments| == |old(Memory()).segmentIds|
      ensures r.Done? ==> Issued(old(dir.world.hist), Adds(items), dir.world.hist)
                          && SyncedFrom(|old(dir.world.hist)|)
      ensures r.Done? ==> Memory() == AfterAdds(old(Memory()), items) && Map() == Fold(old(Map()), Adds(items))
      ensures exists j: nat, k: nat :: Reached(items, j, k)
                && (r.Failed? && !old(poisoned) ==>
                      BatchError(r.error, |old(dir.world.hist)|, old(Memory()), items, j, k))
      ensures r.Done? && !autoCompact ==> OnlyRecorded(Adds(items))
    {
      assert |segments| == |segmentIds| by { dir.Invariant(); }
      if poisoned {
        assert Reached(items, 0, 0);
        return Failed(Poisoned);
      }
      ghost var j, k;
      r, j, k := ExtendLive(items);
      assert items[..|items|] == items;
      assert Reached(items, j, k);
    }

    /** The batch and its final sync, for a store that is not poisoned. */
    method ExtendLive(items: seq<Entry>) returns (r: Outcome, ghost j: nat, ghost k: nat)
      requires Valid() && !poisoned && |segments| == |segmentIds|
      modifies this, dir
      ensures Valid() && old(dir.events) <= dir.events
      ensures old(dir.faults) <= dir.faults && (r.Failed? ==> old(logDead) || Refused())
      ensures Reached(items, j, k)
      ensures r.Failed? ==> BatchError(r.error, |old(dir.world.hist)|, old(Memory()), items, j, k)
      ensures r.Done? ==> j == k == |items| && SyncedFrom(|old(dir.world.hist)|)
      ensures r.Done? ==> Extended(Began(old(dir.world.hist), old(Map()), old(Memory()), old(dir.world.disk)),
                                   items, |items|)
    {
      r, j, k := ExtendEach(items);
      if r.Done? && items != [] {
        ghost var h := dir.world.hist;
        var ok := SyncBatch(|old(dir.world.hist)|);
        IssuedThen(old(dir.world.hist), Adds(items[..j]), h, [], dir.world.hist);
        if !ok { r := Failed(LogFailed); }
      }
    }

    /** How far a batch got in this call. */
    twostate predicate Reached(items: seq<Entry>, j: nat, k: nat)
      requires old(Linked()) && Linked()
      reads this, dir
    {
      Batch(old(dir.world.hist), old(Map()), items, j, k, dir.world.hist, Map())
    }

    /** What an error of `extend` means: a log failure, or the merge that the last applied
        item made due failed, and then every issued item is applied and durable. */
    ghost predicate BatchError(e: Error, from: nat, m: Mem, items: seq<Entry>, j: nat, k: nat)
      requires |m.segments| == |m.segmentIds|
      reads dir
    {
      e == LogFailed
      || (NotSaved(e) && j == k && SyncedFrom(from) && 0 < k <= |items|
          && MergeFollows(Apply(AfterAdds(m, items[..k - 1]), Add(items[k - 1].0, items[k - 1].1))))
    }

    /** The first `i` items of a batch begun in `b` are in the map, and with
        auto-compaction off their records are all that changed on disk. */
    ghost predicate Extended(b: Began, items: seq<Entry>, i: nat)
      requires Linked() && i <= |items| && |b.mem.segments| == |b.mem.segmentIds|
      reads this, dir
    {
      && Batch(b.hist, b.items, items, i, i, dir.world.hist, Map())
      && Memory() == AfterAdds(b.mem, items[..i])
      && (!autoCompact ==>
            && dir.manifest == b.disk.manifest && dir.segs == b.disk.segs
            && CurLog(dir.world.disk).recs == CurLog(b.disk).recs + Adds(items[..i]))
    }

    /** One turn of the loop of `extend`. */
    method ExtendAt(items: seq<Entry>, i: nat, ghost b: Began) returns (r: Outcome, ghost applied: bool)
      requires Valid() && !poisoned && i < |items| && |b.hist| <= |dir.world.hist| && CoveredFrom(|b.hist|)
      requires |b.mem.segments| == |b.mem.segmentIds| && Extended(b, items, i)
      modifies this, dir
      ensures Valid() && old(dir.events) <= dir.events
      ensures old(dir.faults) <= dir.faults && (r.Failed? ==> old(logDead) || Refused())
      ensures Batch(b.hist, b.items, items, i + 1, if applied then i + 1 else i, dir.world.hist, Map())
      ensures r.Failed? ==> BatchError(r.error, |b.hist|, b.mem, items, i + 1, if applied then i + 1 else i)
      ensures r.Done? ==> applied && !poisoned && !logDead && CoveredFrom(|b.hist|) && Extended(b, items, i + 1)
    {
      ghost var h, m, recs := dir.world.hist, Map(), CurLog(dir.world.disk).recs;
      AfterAddsNext(b.mem, items, i);
      if !autoCompact { RecordsNext(CurLog(b.disk).recs, items, i, recs); }
      r, applied := ExtendOne(Add(items[i].0, items[i].1), |b.hist|);
      BatchNext(b.hist, b.items, items, i, h, m, applied, dir.world.hist, Map());
    }

    /** The loop of `extend`: `j` items were issued and `k` applied. */
    method ExtendEach(items: seq<Entry>) returns (r: Outcome, ghost j: nat, ghost k: nat)
      requires Valid() && !poisoned && |segments| == |segmentIds|
      modifies this, dir
      ensures Valid() && old(dir.events) <= dir.events
      ensures old(dir.faults) <= dir.faults && (r.Failed? ==> old(logDead) || Refused())
      ensures Reached(items, j, k)
      ensures r.Failed? ==> BatchError(r.error, |old(dir.world.hist)|, old(Memory()), items, j, k)
      ensures r.Done? ==> !poisoned && (items != [] ==> !logDead) && j == k == |items|
                          && CoveredFrom(|old(dir.world.hist)|)
      ensures r.Done? ==> Extended(Began(old(dir.world.hist), old(Map()), old(Memory()), old(dir.world.disk)),
                                   items, |items|)
    {
      ghost var b := Began(dir.world.hist, Map(), Memory(), dir.world.disk);
      BatchStart(b.hist, b.items, items);
      assert Extended(b, items, 0);
      var i := 0;
      j, k := 0, 0;
      while i < |items|
        invariant 0 <= i == k == j <= |items|
        invariant Valid() && !poisoned && (i > 0 ==> !logDead) && (i == 0 ==> logDead == old(logDead))
        invariant old(dir.events) <= dir.events && old(dir.faults) <= dir.faults && |b.hist| <= |dir.world.hist|
        invariant Extended(b, items, i) && CoveredFrom(|b.hist|)
      {
        ghost var applied;
        r, applied := ExtendAt(items, i, b);
        i := i + 1;
        j, k := i, if applied then i else i - 1;
        if r.Failed? { return; }
      }
      r := Done;
    }
  }

  /** The state in which a batch began. */
  datatype Began = Began(hist: seq<Rec>, items: RefMap, mem: Mem, disk: Disk)

  /** `h'` is `h` followed by the given operations; synced operations stay synced. */
  ghost predicate Issued(h: seq<Rec>, ops: seq<Op>, h': seq<Rec>) {
    && |h'| == |h| + |ops|
    && SameOps(h, h')
    && (forall p: nat :: p < |h| && h[p].must ==> h'[p].must)
    && (forall i :: 0 <= i < |ops| ==> h'[|h| + i].op == ops[i])
  }

  lemma IssuedThen(h: seq<Rec>, a: seq<Op>, h1: seq<Rec>, b: seq<Op>, h2: seq<Rec>)
    requires Issued(h, a, h1) && Issued(h1, b, h2)
    ensures Issued(h, a + b, h2)
  {
    forall i | 0 <= i < |a + b| ensures h2[|h| + i].op == (a + b)[i] {
      if i < |a| {
        assert h1[|h| + i].op == a[i];
      } else {
        assert h2[|h1| + (i - |a|)].op == b[i - |a|];
      }
    }
  }

  /** From history `h` and map `r`, the first `j` items of a batch were issued and the
      first `k` applied; at most the last one issued is missing from the map. */
  ghost predicate Batch(h: seq<Rec>, r: RefMap, items: seq<Entry>, j: nat, k: nat, h': seq<Rec>, r': RefMap) {
    && k <= j <= k + 1 && j <= |items|
    && Issued(h, Adds(items[..j]), h') && r' == Fold(r, Adds(items[..k]))
  }

  lemma BatchStart(h: seq<Rec>, r: RefMap, items: seq<Entry>)
    ensures items[..0] == [] && Adds(items[..0]) == [] && Batch(h, r, items, 0, 0, h, r)
  {
  }

  lemma BatchNext(h: seq<Rec>, r: RefMap, items: seq<Entry>, i: nat, h1: seq<Rec>, r1: RefMap, applied: bool,
                  h2: seq<Rec>, r2: RefMap)
    requires i < |items| && Batch(h, r, items, i, i, h1, r1)
    requires Issued(h1, [Add(items[i].0, items[i].1)], h2)
    requires r2 == if applied then Step(r1, Add(items[i].0, items[i].1)) else r1
    ensures Batch(h, r, items, i + 1, if applied then i + 1 else i, h2, r2)
  {
    AddsNext(items, i, r);
    IssuedThen(h, Adds(items[..i]), h1, [Add(items[i].0, items[i].1)], h2);
  }

  lemma RecordsNext(start: seq<Op>, items: seq<Entry>, i: nat, recs: seq<Op>)
    requires i < |items| && recs == start + Adds(items[..i])
    ensures recs + [Add(items[i].0, items[i].1)] == start + Adds(items[..i + 1])
  {
    AddsNext(items, i, map[]);
  }

  function Adds(items: seq<Entry>): (r: seq<Op>)
    ensures |r| == |items| && forall i :: 0 <= i < |items| ==> r[i] == Add(items[i].0, items[i].1)
  {
    seq(|items|, i requires 0 <= i < |items| => Add(items[i].0, items[i].1))
  }

  lemma AddsNext(items: seq<Entry>, i: nat, r: RefMap)
    requires i < |items|
    ensures Adds(items[..i + 1]) == Adds(items[..i]) + [Add(items[i].0, items[i].1)]
    ensures Fold(r, Adds(items[..i + 1])) == Step(Fold(r, Adds(items[..i])), Add(items[i].0, items[i].1))
  {
    var ops := Adds(items[..i + 1]);
    assert ops[..i] == Adds(items[..i]);
  }
}
