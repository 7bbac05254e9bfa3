/** What is on disk, and how a store is loaded from it. */
module Disk {
  import opened Base
  import opened Memory
  import opened Recovery

  /** The commit point: it names the segment files and the log epoch it covers. */
  datatype Manifest = Manifest(
    epoch: nat,
    nextSegId: nat,
    segmentIds: seq<nat>,
    tombstones: set<Id>,
    superseded: map<nat, set<Id>>)

  /** One log generation: its readable records, of which the first `synced` are safe. */
  datatype Log = Log(recs: seq<Op>, synced: nat)

  /** `platter` holds, for every segment id ever written, the contents last written: what
      a removed file has if a crash undoes the removal. */
  datatype Disk = Disk(
    manifest: Option<Manifest>,
    segs: map<nat, Segment>,
    logs: map<nat, Log>,
    platter: map<nat, Segment>)

  const EMPTY_DISK := Disk(None, map[], map[], map[])

  function Epoch(d: Disk): nat { if d.manifest.Some? then d.manifest.value.epoch else 0 }

  function NextId(d: Disk): nat { if d.manifest.Some? then d.manifest.value.nextSegId else 0 }

  function NamedIds(d: Disk): seq<nat> { if d.manifest.Some? then d.manifest.value.segmentIds else [] }

  /** The log that recovery replays: the one of the manifest's epoch. */
  function CurLog(d: Disk): Log { if Epoch(d) in d.logs then d.logs[Epoch(d)] else Log([], 0) }

  predicate FilesPresent(ids: seq<nat>, segs: map<nat, Segment>) {
    forall i :: 0 <= i < |ids| ==> ids[i] in segs
  }

  function Files(ids: seq<nat>, segs: map<nat, Segment>): (r: seq<Segment>)
    requires FilesPresent(ids, segs)
    ensures |r| == |ids| && forall i :: 0 <= i < |ids| ==> r[i] == segs[ids[i]]
  {
    seq(|ids|, i requires 0 <= i < |ids| => segs[ids[i]])
  }

  /** The checkpointed state. `None` stands for the errors of `open`: a named file is
      missing, or one segment holds two live copies of an id. */
  function Load(d: Disk): Option<Mem> {
    match d.manifest
    case None => Some(EMPTY_MEM)
    case Some(mf) =>
      if !FilesPresent(mf.segmentIds, d.segs) then None
      else
        var segments := Files(mf.segmentIds, d.segs);
        match ClaimAll(Tables(map[], mf.superseded), mf.tombstones, mf.segmentIds, segments)
        case None => None
        case Some(t) =>
          Some(Mem([], segments, mf.segmentIds, mf.tombstones, {}, t.superseded, t.owners, mf.nextSegId))
  }

  /** The state `open` returns: the checkpoint, then the log replayed over it. */
  function Recover(d: Disk, threshold: nat): Option<Mem> {
    match Load(d)
    case None => None
    case Some(m) => Some(Replay(m, CurLog(d).recs, threshold))
  }

  function ManifestOf(m: Mem, epoch: nat): Manifest {
    Manifest(epoch, m.nextSegId, m.segmentIds, m.tombstones, m.superseded)
  }

  /** The disk left by a crash that keeps only `k` records of the current log. */
  function Torn(d: Disk, k: nat): Disk
    requires k <= |CurLog(d).recs|
  {
    if Epoch(d) in d.logs then d.(logs := d.logs[Epoch(d) := Log(CurLog(d).recs[..k], CurLog(d).synced)]) else d
  }

  /** What readers are shown: segments, their ids, and both liveness tables. */
  datatype Snapshot = Snapshot(
    segments: seq<Segment>,
    segmentIds: seq<nat>,
    tombstones: set<Id>,
    superseded: map<nat, set<Id>>)

  function SnapshotOf(m: Mem): Snapshot { Snapshot(m.segments, m.segmentIds, m.tombstones, m.superseded) }

  /** What a manifest-only catalog shows: the manifest's tables over the named files. */
  function Catalog(d: Disk): Option<Snapshot> {
    match d.manifest
    case None => Some(Snapshot([], [], {}, map[]))
    case Some(mf) =>
      if !FilesPresent(mf.segmentIds, d.segs) then None
      else Some(Snapshot(Files(mf.segmentIds, d.segs), mf.segmentIds, mf.tombstones, mf.superseded))
  }

  /** Scanning a snapshot with `is_live_in` yields exactly `r`. */
  ghost predicate Shows(s: Snapshot, r: RefMap) {
    Represents(Mem([], s.segments, s.segmentIds, s.tombstones, {}, s.superseded, map[], 0), r)
  }

  /** `d` holds the checkpoint of exactly `m`. */
  ghost predicate Saved(d: Disk, m: Mem) {
    && d.manifest == Some(ManifestOf(m, Epoch(d)))
    && FilesPresent(m.segmentIds, d.segs)
    && Files(m.segmentIds, d.segs) == m.segments
  }

  /** Loading a checkpoint gives back the identical state that was checkpointed. */
  lemma LoadSaved(d: Disk, m: Mem)
    requires MemInv(m) && m.buffer == [] && Saved(d, m)
    ensures Load(d) == Some(m)
  {
    RebuildExact(m);
    assert m.bufferIds == {};
  }

  /** A loaded state has the segments the manifest names. */
  lemma LoadNamed(d: Disk)
    requires Load(d).Some?
    ensures Load(d).value.segmentIds == NamedIds(d) && |Load(d).value.segments| == |NamedIds(d)|
    ensures Load(d).value.nextSegId == NextId(d)
  {
  }

  /** Exact replay: reopening after a checkpoint and a run of adds and deletes rebuilds
      the identical state, and not just the same map. */
  lemma ExactReplay(d: Disk, m: Mem, threshold: nat)
    requires MemInv(m) && m.buffer == [] && Saved(d, m)
    ensures Recover(d, threshold) == Some(LiveRun(m, CurLog(d).recs, threshold))
  {
    LoadSaved(d, m);
    ReplayIsLiveRun(m, CurLog(d).recs, threshold);
  }
}
