/** The single writer over a disk that can crash between any two steps. */
module Protocol {
  import opened Base
  import opened Memory
  import opened Merging
  import opened Disk

  /** One operation ever issued. `must` records that its log record was synced: every
      later recovery has to return it. */
  datatype Rec = Rec(op: Op, must: bool)

  datatype Writer = Writer(
    mem: Mem,
    epoch: nat,
    persisted: set<nat>,
    poisoned: bool,
    logDead: bool,
    published: Snapshot,
    stale: bool,
    memAt: seq<nat>)

  /** The disk, the writer if one is open, and the bookkeeping of the history:
      the positions reflected in the manifest (`done`), in the current log (`logAt`),
      in memory (`memAt`), and every segment any manifest ever named (`named`). */
  datatype World = World(
    disk: Disk,
    hist: seq<Rec>,
    done: seq<nat>,
    logAt: seq<nat>,
    writer: Option<Writer>,
    named: map<nat, Segment>)

  const START := World(EMPTY_DISK, [], [], [], None, map[])

  datatype Event =
    | Refuse(op: Op)
    | Append(op: Op, fault: Fault)
    | Sync(ok: bool)
    | ApplyLogged
    | SealBuffer
    | AllocId
    | WriteSegment(id: nat, seg: Segment, fault: Fault)
    | SwapGroup(indices: seq<nat>, id: nat)
    | Purge
    | Commit(fault: Fault)
    | Forget
    | RemoveSegment(id: nat)
    | RemoveLog(epoch: nat)
    | Publish
    | Crash(kept: nat)
    | ReviveSegment(id: nat)
    | ReviveLog(epoch: nat, log: Log)
    | Open(threshold: nat)

  // ---------------------------------------------------------------------------
  // History bookkeeping
  // ---------------------------------------------------------------------------

  function OpsAt(hist: seq<Rec>, at: seq<nat>): (r: seq<Op>)
    requires Within(at, |hist|)
    ensures |r| == |at| && forall i :: 0 <= i < |at| ==> r[i] == hist[at[i]].op
  {
    seq(|at|, i requires 0 <= i < |at| => hist[at[i]].op)
  }

  /** The map obtained by folding, in order, the operations at the given positions. */
  function FoldAt(hist: seq<Rec>, at: seq<nat>): RefMap
    requires Within(at, |hist|)
  {
    Fold(map[], OpsAt(hist, at))
  }

  /** A choice of operations from the history that keeps its order and leaves out no
      synced operation. */
  ghost predicate Selection(hist: seq<Rec>, at: seq<nat>) {
    && Increasing(at) && Within(at, |hist|)
    && (forall p: nat :: p < |hist| && hist[p].must ==> p in at)
  }

  function MarkSynced(hist: seq<Rec>, at: seq<nat>): (r: seq<Rec>)
    ensures |r| == |hist|
    ensures forall p: nat :: p < |hist| ==> r[p] == Rec(hist[p].op, hist[p].must || p in at)
  {
    seq(|hist|, p requires 0 <= p < |hist| => Rec(hist[p].op, hist[p].must || p in at))
  }

  function PutLog(d: Disk, log: Log): Disk { d.(logs := d.logs[Epoch(d) := log]) }

  /** A log with one more, still unsynced, record. */
  function Appended(d: Disk, op: Op): Disk {
    PutLog(d, Log(CurLog(d).recs + [op], CurLog(d).synced))
  }

  function Written(d: Disk, id: nat, seg: Segment): Disk {
    d.(segs := d.segs[id := seg], platter := d.platter[id := seg])
  }

  function Committed(d: Disk, wr: Writer): Disk {
    d.(manifest := Some(ManifestOf(wr.mem, wr.epoch + 1)))
  }

  // ---------------------------------------------------------------------------
  // Steps
  // ---------------------------------------------------------------------------

  /** The current log records already applied in memory. */
  function Applied(w: World): int
    requires w.writer.Some?
  {
    |w.writer.value.memAt| - |w.done|
  }

  ghost predicate Logging(w: World) {
    && w.writer.Some? && !w.writer.value.poisoned && !w.writer.value.logDead
  }

  ghost predicate Enabled(w: World, e: Event) {
    match e
    case Refuse(_) => w.writer.Some?
    case Append(_, _) => Logging(w) && Applied(w) == |w.logAt|
    case Sync(_) => Logging(w)
    case ApplyLogged =>
      w.writer.Some? && !w.writer.value.poisoned && 0 <= Applied(w) < |w.logAt| && |w.logAt| == |CurLog(w.disk).recs|
    case SealBuffer => w.writer.Some?
    case AllocId => w.writer.Some?
    case WriteSegment(id, seg, _) =>
      && w.writer.Some?
      && var m := w.writer.value.mem;
      && NextId(w.disk) <= id < m.nextSegId
      && |m.segments| == |m.segmentIds|
      && forall i :: 0 <= i < |m.segments| && m.segmentIds[i] == id ==> m.segments[i] == seg
    case SwapGroup(indices, id) =>
      && w.writer.Some?
      && var wr := w.writer.value;
      && Group(wr.mem, indices)
      && (Merged(wr.mem, indices) != [] ==>
            && FreshId(wr.mem, id)
            && id in wr.persisted && id in w.disk.segs && w.disk.segs[id] == Merged(wr.mem, indices))
    case Purge => w.writer.Some? && AllLive(w.writer.value.mem)
    case Commit(_) =>
      && w.writer.Some?
      && var wr := w.writer.value;
      && !wr.poisoned && wr.mem.buffer == []
      && (forall i :: 0 <= i < |wr.mem.segmentIds| ==> wr.mem.segmentIds[i] in wr.persisted)
      && CurLog(w.disk).synced <= Applied(w)
    case Forget => w.writer.Some?
    case RemoveSegment(id) =>
      && id !in NamedIds(w.disk)
      && (w.writer.Some? ==> id !in w.writer.value.mem.segmentIds)
    case RemoveLog(epoch) => epoch != Epoch(w.disk)
    case Publish =>
      w.writer.Some? && w.writer.value.stale && w.writer.value.mem.buffer == [] && Saved(w.disk, w.writer.value.mem)
    case Crash(kept) => CurLog(w.disk).synced <= kept <= |CurLog(w.disk).recs| && kept <= |w.logAt|
    case ReviveSegment(id) => w.writer.None? && id in w.disk.platter && id !in w.disk.segs
    case ReviveLog(epoch, _) => w.writer.None? && epoch < Epoch(w.disk)
    case Open(threshold) => w.writer.None? && Load(w.disk).Some?
  }

  /** No sealed copy is tombstoned or superseded. */
  ghost predicate AllLive(m: Mem) {
    forall k, x :: HasCopy(m.segments, m.segmentIds, k, x) ==> x !in m.tombstones && x !in Dead(m.superseded, k)
  }

  ghost function SetWriter(w: World, wr: Writer): World { w.(writer := Some(wr)) }

  ghost function SetMem(w: World, m: Mem): World
    requires w.writer.Some?
  {
    SetWriter(w, w.writer.value.(mem := m))
  }

  ghost function Next(w: World, e: Event): World
    requires Enabled(w, e)
  {
    match e
    case Refuse(op) => w.(hist := w.hist + [Rec(op, false)])
    case Append(op, fault) =>
      var w1 := w.(hist := w.hist + [Rec(op, false)]);
      var w2 := if fault.Absent? then w1 else w1.(disk := Appended(w.disk, op), logAt := w.logAt + [|w.hist|]);
      if fault.Success? then w2 else SetWriter(w2, w.writer.value.(logDead := true))
    case Sync(ok) =>
      if ok then
        w.(hist := MarkSynced(w.hist, w.logAt),
           disk := PutLog(w.disk, Log(CurLog(w.disk).recs, |CurLog(w.disk).recs|)))
      else SetWriter(w, w.writer.value.(logDead := true))
    case ApplyLogged =>
      var wr := w.writer.value;
      SetWriter(w, wr.(mem := Apply(wr.mem, CurLog(w.disk).recs[Applied(w)]),
                       memAt := wr.memAt + [w.logAt[Applied(w)]]))
    case SealBuffer => SetMem(w, Seal(w.writer.value.mem))
    case AllocId => SetMem(w, Alloc(w.writer.value.mem))
    case WriteSegment(id, seg, fault) =>
      var wr := w.writer.value;
      var w1 := if fault.Absent? then w else w.(disk := Written(w.disk, id, seg));
      if fault.Success? then SetWriter(w1, wr.(persisted := wr.persisted + {id})) else w1
    case SwapGroup(indices, id) => SetMem(w, Swap(w.writer.value.mem, indices, id))
    case Purge => SetMem(w, w.writer.value.mem.(tombstones := {}, superseded := map[]))
    case Commit(fault) =>
      var wr := w.writer.value;
      var w1 := if fault.Absent? then w
                else w.(disk := Committed(w.disk, wr), done := wr.memAt, logAt := [],
                        named := w.named + map k | k in wr.mem.segmentIds && k in w.disk.segs :: w.disk.segs[k]);
      if fault.Success? then SetWriter(w1, wr.(epoch := wr.epoch + 1, logDead := false, stale := true))
      else SetWriter(w1, wr.(poisoned := true))
    case Forget =>
      var wr := w.writer.value;
      SetWriter(w, wr.(persisted := set k | k in wr.persisted && k in wr.mem.segmentIds))
    case RemoveSegment(id) => w.(disk := w.disk.(segs := w.disk.segs - {id}))
    case RemoveLog(epoch) => w.(disk := w.disk.(logs := w.disk.logs - {epoch}))
    case Publish =>
      var wr := w.writer.value;
      SetWriter(w, wr.(published := SnapshotOf(wr.mem), stale := false))
    case Crash(kept) => w.(disk := Torn(w.disk, kept), logAt := w.logAt[..kept], writer := None)
    // A removal whose directory entry was not durable is undone by a crash.
    case ReviveSegment(id) => w.(disk := w.disk.(segs := w.disk.segs[id := w.disk.platter[id]]))
    case ReviveLog(epoch, log) => w.(disk := w.disk.(logs := w.disk.logs[epoch := log]))
    case Open(threshold) =>
      var m := Load(w.disk).value;
      var ids := NamedIds(w.disk);
      SetWriter(w, Writer(Replay(m, CurLog(w.disk).recs, threshold), Epoch(w.disk), set k | k in ids,
                          false, false, SnapshotOf(m), false, w.done + w.logAt))
  }

  // ---------------------------------------------------------------------------
  // The invariant
  // ---------------------------------------------------------------------------

  /** The log holds the operations at `logAt`, and every synced operation is in the
      manifest or in the synced part of the log. */
  ghost predicate HistoryOk(w: World) {
    var log := CurLog(w.disk);
    && Increasing(w.done + w.logAt) && Within(w.done + w.logAt, |w.hist|)
    && |w.logAt| == |log.recs| && log.synced <= |log.recs|
    && (forall i :: 0 <= i < |w.logAt| ==> w.logAt[i] < |w.hist| && w.hist[w.logAt[i]].op == log.recs[i])
    && (forall p: nat :: p < |w.hist| && w.hist[p].must ==> p in w.done || p in w.logAt[..log.synced])
  }

  /** The manifest loads, to the map of the operations in `done`; no log is newer. */
  ghost predicate ManifestOk(w: World) {
    && (forall k :: k in w.disk.logs ==> k <= Epoch(w.disk))
    && Load(w.disk).Some? && MemInv(Load(w.disk).value)
    && Catalog(w.disk) == Some(SnapshotOf(Load(w.disk).value))
    && Within(w.done, |w.hist|) && Represents(Load(w.disk).value, FoldAt(w.hist, w.done))
  }

  /** An id named by any manifest, past or present, denotes one segment for ever. */
  ghost predicate NamesOk(w: World) {
    && (forall k :: k in w.named ==> k < NextId(w.disk) && k in w.disk.platter && w.disk.platter[k] == w.named[k])
    && (forall k :: k in w.disk.segs ==> k in w.disk.platter && w.disk.platter[k] == w.disk.segs[k])
    && (forall k :: k in NamedIds(w.disk) ==> k in w.named && k in w.disk.segs)
  }

  /** Files of persisted segments match memory, and a segment the manifest could name
      is persisted. */
  ghost predicate FilesOk(d: Disk, wr: Writer) {
    && NextId(d) <= wr.mem.nextSegId
    && |wr.mem.segments| == |wr.mem.segmentIds|
    && (forall i :: 0 <= i < |wr.mem.segmentIds| && wr.mem.segmentIds[i] in wr.persisted ==>
          wr.mem.segmentIds[i] in d.segs && d.segs[wr.mem.segmentIds[i]] == wr.mem.segments[i])
    && (forall i :: 0 <= i < |wr.mem.segmentIds| && wr.mem.segmentIds[i] < NextId(d) ==>
          wr.mem.segmentIds[i] in wr.persisted)
    && (forall k :: k in wr.persisted ==> k < wr.mem.nextSegId)
  }

  /** Memory represents the operations at `memAt`; unless a manifest write failed, these
      are the manifest's followed by the applied part of the log. */
  ghost predicate WriterOk(w: World, wr: Writer) {
    && MemInv(wr.mem)
    && Increasing(wr.memAt) && Within(wr.memAt, |w.hist|)
    && Represents(wr.mem, FoldAt(w.hist, wr.memAt))
    && FilesOk(w.disk, wr)
    && (!wr.poisoned ==>
          && wr.epoch == Epoch(w.disk)
          && |w.done| <= |wr.memAt| <= |w.done| + |w.logAt|
          && wr.memAt == (w.done + w.logAt)[..|wr.memAt|]
          && (!wr.stale ==> Catalog(w.disk) == Some(wr.published)))
  }

  ghost predicate WorldInv(w: World) {
    HistoryOk(w) && ManifestOk(w) && NamesOk(w) && (w.writer.Some? ==> WriterOk(w, w.writer.value))
  }
}
