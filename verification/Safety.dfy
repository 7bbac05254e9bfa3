/** Every step of the protocol keeps its invariant. */
module Safety {
  import opened Base
  import opened Memory
  import opened Refinement
  import opened Merging
  import opened Disk
  import opened Protocol

  /** `b` extends `a` without changing the operations already issued. */
  ghost predicate SameOps(a: seq<Rec>, b: seq<Rec>) {
    |a| <= |b| && forall i :: 0 <= i < |a| ==> b[i].op == a[i].op
  }

  lemma FoldStable(a: seq<Rec>, b: seq<Rec>, at: seq<nat>)
    requires SameOps(a, b) && Within(at, |a|)
    ensures Within(at, |b|) && FoldAt(b, at) == FoldAt(a, at)
  {
    assert OpsAt(b, at) == OpsAt(a, at);
  }

  lemma FoldNext(hist: seq<Rec>, at: seq<nat>, p: nat)
    requires Within(at, |hist|) && p < |hist|
    ensures Within(at + [p], |hist|) && FoldAt(hist, at + [p]) == Step(FoldAt(hist, at), hist[p].op)
  {
    var ops := OpsAt(hist, at + [p]);
    assert ops[..|ops| - 1] == OpsAt(hist, at);
  }

  lemma FoldConcat(hist: seq<Rec>, a: seq<nat>, b: seq<nat>)
    requires Within(a, |hist|) && Within(b, |hist|)
    ensures Within(a + b, |hist|) && FoldAt(hist, a + b) == Fold(FoldAt(hist, a), OpsAt(hist, b))
  {
    assert OpsAt(hist, a + b) == OpsAt(hist, a) + OpsAt(hist, b);
    FoldSplit(map[], OpsAt(hist, a), OpsAt(hist, b));
  }

  /** Replaying the first `k` log records over the checkpoint folds their positions too. */
  lemma FoldLog(w: World, k: nat)
    requires HistoryOk(w) && k <= |w.logAt|
    ensures Within(w.done, |w.hist|) && Within(w.done + w.logAt[..k], |w.hist|)
    ensures FoldAt(w.hist, w.done + w.logAt[..k]) == Fold(FoldAt(w.hist, w.done), CurLog(w.disk).recs[..k])
  {
    var all := w.done + w.logAt;
    assert forall i :: 0 <= i < |w.done| ==> all[i] == w.done[i];
    assert OpsAt(w.hist, w.logAt[..k]) == CurLog(w.disk).recs[..k];
    FoldConcat(w.hist, w.done, w.logAt[..k]);
  }

  /** Keeping any part of the log that contains the synced records is a selection. */
  lemma PrefixSelects(w: World, k: nat)
    requires HistoryOk(w) && CurLog(w.disk).synced <= k <= |w.logAt|
    ensures Selection(w.hist, w.done + w.logAt[..k])
  {
    var all, at := w.done + w.logAt, w.done + w.logAt[..k];
    assert forall i :: 0 <= i < |at| ==> at[i] == all[i];
    forall p: nat | p < |w.hist| && w.hist[p].must ensures p in at {
      if p !in w.done {
        var i :| 0 <= i < CurLog(w.disk).synced && w.logAt[..CurLog(w.disk).synced][i] == p;
        assert w.logAt[..k][i] == p;
      }
    }
  }

  // ---------------------------------------------------------------------------
  // Steps that only extend or mark the history and the log
  // ---------------------------------------------------------------------------

  /** Loading depends only on the manifest and the files it names. */
  lemma LoadByNames(a: Disk, b: Disk)
    requires a.manifest == b.manifest
    requires forall k :: k in NamedIds(a) ==> (k in a.segs <==> k in b.segs) && (k in a.segs ==> a.segs[k] == b.segs[k])
    ensures Load(a) == Load(b) && Catalog(a) == Catalog(b)
  {
    if a.manifest.Some? {
      var ids := NamedIds(a);
      assert FilesPresent(ids, a.segs) <==> FilesPresent(ids, b.segs);
      if FilesPresent(ids, a.segs) { assert Files(ids, a.segs) == Files(ids, b.segs); }
    }
  }

  /** The manifest and writer conditions survive any change of the log and any
      extension of the history that keeps the operations in order. */
  lemma KeepRest(w: World, w': World)
    requires WorldInv(w) && SameOps(w.hist, w'.hist)
    requires w'.disk.manifest == w.disk.manifest && w'.disk.segs == w.disk.segs && w'.disk.platter == w.disk.platter
    requires forall k :: k in w'.disk.logs ==> k <= Epoch(w.disk)
    requires w'.done == w.done && w'.named == w.named
    ensures ManifestOk(w') && NamesOk(w')
  {
    LoadByNames(w.disk, w'.disk);
    FoldStable(w.hist, w'.hist, w.done);
  }

  lemma KeepWriter(w: World, w': World, wr: Writer, dead: bool)
    requires WriterOk(w, wr) && SameOps(w.hist, w'.hist)
    requires w'.disk.manifest == w.disk.manifest && w'.disk.segs == w.disk.segs
    requires w'.done == w.done && w.logAt <= w'.logAt
    ensures WriterOk(w', wr.(logDead := dead))
  {
    LoadByNames(w.disk, w'.disk);
    FoldStable(w.hist, w'.hist, wr.memAt);
    if !wr.poisoned {
      assert (w'.done + w'.logAt)[..|wr.memAt|] == (w.done + w.logAt)[..|wr.memAt|];
    }
  }

  lemma RefuseKeeps(w: World, op: Op)
    requires WorldInv(w) && Enabled(w, Refuse(op))
    ensures WorldInv(Next(w, Refuse(op)))
  {
    var w' := Next(w, Refuse(op));
    KeepRest(w, w');
    KeepWriter(w, w', w.writer.value, w.writer.value.logDead);
  }

  lemma AppendHistory(w: World, op: Op)
    requires HistoryOk(w)
    ensures HistoryOk(w.(hist := w.hist + [Rec(op, false)]))
    ensures HistoryOk(w.(hist := w.hist + [Rec(op, false)], disk := Appended(w.disk, op),
                         logAt := w.logAt + [|w.hist|]))
  {
    var w' := w.(hist := w.hist + [Rec(op, false)], disk := Appended(w.disk, op), logAt := w.logAt + [|w.hist|]);
    var log, log' := CurLog(w.disk), CurLog(w'.disk);
    assert log' == Log(log.recs + [op], log.synced);
    assert w'.done + w'.logAt == (w.done + w.logAt) + [|w.hist|];
    assert w'.logAt[..log'.synced] == w.logAt[..log.synced];
  }

  lemma AppendKeeps(w: World, op: Op, fault: Fault)
    requires WorldInv(w) && Enabled(w, Append(op, fault))
    ensures WorldInv(Next(w, Append(op, fault)))
  {
    var w' := Next(w, Append(op, fault));
    assert HistoryOk(w') by { AppendHistory(w, op); }
    assert ManifestOk(w') && NamesOk(w') by { KeepRest(w, w'); }
    assert WriterOk(w', w'.writer.value) by { KeepWriter(w, w', w.writer.value, !fault.Success?); }
  }

  lemma SyncKeeps(w: World, ok: bool)
    requires WorldInv(w) && Enabled(w, Sync(ok))
    ensures WorldInv(Next(w, Sync(ok)))
  {
    var w' := Next(w, Sync(ok));
    if ok {
      assert CurLog(w'.disk) == Log(CurLog(w.disk).recs, |CurLog(w.disk).recs|);
      assert w'.logAt[..|w'.logAt|] == w.logAt;
      var s := CurLog(w.disk).synced;
      forall p: nat | p < |w'.hist| && w'.hist[p].must ensures p in w'.done || p in w'.logAt {
        if w.hist[p].must && p in w.logAt[..s] { assert p in w.logAt; }
      }
    }
    KeepRest(w, w');
    KeepWriter(w, w', w.writer.value, if ok then w.writer.value.logDead else true);
  }

  lemma CrashKeeps(w: World, kept: nat)
    requires WorldInv(w) && Enabled(w, Crash(kept))
    ensures WorldInv(Next(w, Crash(kept)))
  {
    CrashHistory(w, kept);
    KeepRest(w, Next(w, Crash(kept)));
  }

  lemma CrashHistory(w: World, kept: nat)
    requires HistoryOk(w) && Enabled(w, Crash(kept))
    ensures HistoryOk(Next(w, Crash(kept)))
  {
    var w' := Next(w, Crash(kept));
    var log, log' := CurLog(w.disk), CurLog(w'.disk);
    assert log'.recs == log.recs[..kept] && log'.synced == log.synced;
    assert forall i :: 0 <= i < |w'.done + w'.logAt| ==> (w'.done + w'.logAt)[i] == (w.done + w.logAt)[i];
    assert w'.logAt[..log.synced] == w.logAt[..log.synced];
  }

  lemma RemoveLogKeeps(w: World, epoch: nat)
    requires WorldInv(w) && Enabled(w, RemoveLog(epoch))
    ensures WorldInv(Next(w, RemoveLog(epoch)))
  {
    var w' := Next(w, RemoveLog(epoch));
    assert CurLog(w'.disk) == CurLog(w.disk);
    KeepRest(w, w');
    if w.writer.Some? { KeepWriter(w, w', w.writer.value, w.writer.value.logDead); }
  }

  // ---------------------------------------------------------------------------
  // Steps in memory
  // ---------------------------------------------------------------------------

  /** Replacing the memory, and the positions it reflects, by what means the same. */
  lemma SetMemoryKeeps(w: World, m: Mem, at: seq<nat>)
    requires WorldInv(w) && w.writer.Some?
    requires Increasing(at) && Within(at, |w.hist|) && MemInv(m) && Represents(m, FoldAt(w.hist, at))
    requires FilesOk(w.disk, w.writer.value.(mem := m, memAt := at))
    requires !w.writer.value.poisoned ==>
               |w.done| <= |at| <= |w.done| + |w.logAt| && at == (w.done + w.logAt)[..|at|]
    ensures WorldInv(SetWriter(w, w.writer.value.(mem := m, memAt := at)))
  {
  }

  lemma ApplyFiles(d: Disk, wr: Writer, op: Op, at: seq<nat>)
    requires FilesOk(d, wr)
    ensures FilesOk(d, wr.(mem := Apply(wr.mem, op), memAt := at))
  {
    ApplyTables(wr.mem, op);
  }

  lemma ApplyKeeps(w: World)
    requires WorldInv(w) && Enabled(w, ApplyLogged)
    ensures WorldInv(Next(w, ApplyLogged))
  {
    var wr := w.writer.value;
    var n := Applied(w);
    var op := CurLog(w.disk).recs[n];
    var all := w.done + w.logAt;
    var at := wr.memAt + [w.logAt[n]];
    assert all[|wr.memAt|] == w.logAt[n];
    assert at == all[..|at|];
    FoldNext(w.hist, wr.memAt, w.logAt[n]);
    ApplyRefines(wr.mem, op, FoldAt(w.hist, wr.memAt));
    ApplyFiles(w.disk, wr, op, at);
    SetMemoryKeeps(w, Apply(wr.mem, op), at);
  }

  /** Replacing the memory by one that means the same and keeps the file conditions. */
  lemma SetMemKeeps(w: World, m: Mem)
    requires WorldInv(w) && w.writer.Some?
    requires MemInv(m) && Represents(m, FoldAt(w.hist, w.writer.value.memAt))
    requires FilesOk(w.disk, w.writer.value.(mem := m))
    ensures WorldInv(SetMem(w, m))
  {
  }

  lemma SealKeeps(w: World)
    requires WorldInv(w) && Enabled(w, SealBuffer)
    ensures WorldInv(Next(w, SealBuffer))
  {
    var wr := w.writer.value;
    SealRefines(wr.mem, FoldAt(w.hist, wr.memAt));
    SealFiles(w.disk, wr);
    SetMemKeeps(w, Seal(wr.mem));
  }

  lemma SealFiles(d: Disk, wr: Writer)
    requires FilesOk(d, wr)
    ensures FilesOk(d, wr.(mem := Seal(wr.mem)))
  {
  }

  lemma AllocKeeps(w: World)
    requires WorldInv(w) && Enabled(w, AllocId)
    ensures WorldInv(Next(w, AllocId))
  {
    var wr := w.writer.value;
    AllocRefines(wr.mem, FoldAt(w.hist, wr.memAt));
    SetMemKeeps(w, Alloc(wr.mem));
  }

  lemma SwapFiles(d: Disk, wr: Writer, indices: seq<nat>, merged: Segment, id: nat)
    requires FilesOk(d, wr)
    requires merged != [] ==> id in wr.persisted && id in d.segs && d.segs[id] == merged
    ensures FilesOk(d, wr.(mem := Replace(wr.mem, indices, merged, id)))
  {
    var m, m' := wr.mem, Replace(wr.mem, indices, merged, id);
    var kept := KeptIndices(m, indices);
    forall t | 0 <= t < |m'.segmentIds|
      ensures m'.segmentIds[t] in wr.persisted ==>
                m'.segmentIds[t] in d.segs && d.segs[m'.segmentIds[t]] == m'.segments[t]
      ensures m'.segmentIds[t] < NextId(d) ==> m'.segmentIds[t] in wr.persisted
    {
      if t < |kept| {
        assert m'.segmentIds[t] == m.segmentIds[kept[t]] && m'.segments[t] == m.segments[kept[t]];
      } else {
        assert m'.segmentIds[t] == id && m'.segments[t] == merged;
      }
    }
  }

  lemma SwapKeeps(w: World, indices: seq<nat>, id: nat)
    requires WorldInv(w) && Enabled(w, SwapGroup(indices, id))
    ensures WorldInv(Next(w, SwapGroup(indices, id)))
  {
    var wr := w.writer.value;
    SwapRefines(wr.mem, indices, id, FoldAt(w.hist, wr.memAt));
    SwapFiles(w.disk, wr, indices, Merged(wr.mem, indices), id);
    SetMemKeeps(w, Swap(wr.mem, indices, id));
  }

  /** With no dead copy left, clearing both tables changes no one's liveness. */
  lemma PurgeRefines(m: Mem, r: RefMap)
    requires MemInv(m) && AllLive(m) && Represents(m, r)
    ensures MemInv(m.(tombstones := {}, superseded := map[]))
    ensures Represents(m.(tombstones := {}, superseded := map[]), r)
  {
    var m' := m.(tombstones := {}, superseded := map[]);
    forall k, x | HasCopy(m.segments, m.segmentIds, k, x) ensures Owns(m', k, x) {
      assert Owns(m, k, x) <==> x !in Dead(m.superseded, k);
    }
    forall e ensures Visible(m', e) <==> Visible(m, e) {
      forall s: nat ensures LiveSealed(m', s, e) <==> LiveSealed(m, s, e) {
        if s < |m.segments| && e in m.segments[s] {
          assert HasCopy(m.segments, m.segmentIds, m.segmentIds[s], e.0);
          assert e.0 !in Dead(m.superseded, m.segmentIds[s]);
        }
      }
    }
  }

  lemma PurgeKeeps(w: World)
    requires WorldInv(w) && Enabled(w, Purge)
    ensures WorldInv(Next(w, Purge))
  {
    var wr := w.writer.value;
    PurgeRefines(wr.mem, FoldAt(w.hist, wr.memAt));
    SetMemKeeps(w, wr.mem.(tombstones := {}, superseded := map[]));
  }

  // ---------------------------------------------------------------------------
  // Steps on segment files and the manifest
  // ---------------------------------------------------------------------------

  /** History and manifest conditions depend only on the current log and the named files. */
  lemma KeepDurable(w: World, w': World)
    requires HistoryOk(w) && ManifestOk(w)
    requires w'.hist == w.hist && w'.done == w.done && w'.logAt == w.logAt
    requires w'.disk.manifest == w.disk.manifest && CurLog(w'.disk) == CurLog(w.disk)
    requires forall k :: k in w'.disk.logs ==> k <= Epoch(w.disk)
    requires forall k :: k in NamedIds(w.disk) ==>
                           k in w.disk.segs && k in w'.disk.segs && w.disk.segs[k] == w'.disk.segs[k]
    ensures HistoryOk(w') && ManifestOk(w') && Catalog(w'.disk) == Catalog(w.disk)
  {
    LoadByNames(w.disk, w'.disk);
  }

  /** The conditions on memory, when only the files it relies on may have changed. */
  lemma KeepMemory(w: World, w': World, wr: Writer, persisted: set<nat>)
    requires WriterOk(w, wr) && FilesOk(w'.disk, wr.(persisted := persisted))
    requires w'.hist == w.hist && w'.done == w.done && w'.logAt == w.logAt
    requires Epoch(w'.disk) == Epoch(w.disk) && Catalog(w'.disk) == Catalog(w.disk)
    ensures WriterOk(w', wr.(persisted := persisted))
  {
  }

  lemma WriteSegmentKeeps(w: World, id: nat, seg: Segment, fault: Fault)
    requires WorldInv(w) && Enabled(w, WriteSegment(id, seg, fault))
    ensures WorldInv(Next(w, WriteSegment(id, seg, fault)))
  {
    var wr := w.writer.value;
    if !fault.Absent? {
      WrittenKeeps(w, id, seg);
      WriteSegmentFiles(w.disk, wr, id, seg);
      var w' := Next(w, WriteSegment(id, seg, fault));
      var saved := if fault.Success? then wr.persisted + {id} else wr.persisted;
      assert WriterOk(w', wr.(persisted := saved)) by { KeepMemory(w, w', wr, saved); }
    }
  }

  /** Nothing durable depends on a file under an id that no manifest has named. */
  lemma WrittenKeeps(w: World, id: nat, seg: Segment)
    requires HistoryOk(w) && ManifestOk(w) && NamesOk(w) && id >= NextId(w.disk)
    ensures var w' := w.(disk := Written(w.disk, id, seg));
            HistoryOk(w') && ManifestOk(w') && NamesOk(w') && Catalog(w'.disk) == Catalog(w.disk)
  {
    KeepDurable(w, w.(disk := Written(w.disk, id, seg)));
  }

  lemma WriteSegmentFiles(d: Disk, wr: Writer, id: nat, seg: Segment)
    requires FilesOk(d, wr) && NextId(d) <= id < wr.mem.nextSegId
    requires forall i :: 0 <= i < |wr.mem.segments| && wr.mem.segmentIds[i] == id ==> wr.mem.segments[i] == seg
    ensures FilesOk(Written(d, id, seg), wr) && FilesOk(Written(d, id, seg), wr.(persisted := wr.persisted + {id}))
  {
  }

  lemma RemoveSegmentKeeps(w: World, id: nat)
    requires WorldInv(w) && Enabled(w, RemoveSegment(id))
    ensures WorldInv(Next(w, RemoveSegment(id)))
  {
    var d := w.disk.(segs := w.disk.segs - {id});
    SegsKeep(w, d);
    if w.writer.Some? {
      UnusedFile(w.disk, w.writer.value, id);
      KeepMemory(w, w.(disk := d), w.writer.value, w.writer.value.persisted);
    }
  }

  lemma UnusedFile(d: Disk, wr: Writer, id: nat)
    requires FilesOk(d, wr) && id !in wr.mem.segmentIds
    ensures FilesOk(d.(segs := d.segs - {id}), wr)
  {
  }

  /** Nothing durable depends on which other files there are. */
  lemma SegsKeep(w: World, d: Disk)
    requires HistoryOk(w) && ManifestOk(w) && NamesOk(w)
    requires d == w.disk.(segs := d.segs)
    requires forall k :: k in NamedIds(d) ==> k in d.segs
    requires forall k :: k in d.segs ==> k in d.platter && d.platter[k] == d.segs[k]
    ensures var w' := w.(disk := d);
            HistoryOk(w') && ManifestOk(w') && NamesOk(w') && Catalog(w'.disk) == Catalog(w.disk)
  {
    KeepDurable(w, w.(disk := d));
  }

  /** After a crash any removed segment file, and any older log, may be there again. */
  lemma ReviveKeeps(w: World, e: Event)
    requires WorldInv(w) && Enabled(w, e) && (e.ReviveSegment? || e.ReviveLog?)
    ensures WorldInv(Next(w, e))
    ensures var w' := Next(w, e);
            && w'.hist == w.hist && w'.done == w.done && w'.logAt == w.logAt && w'.writer == w.writer
            && CurLog(w'.disk) == CurLog(w.disk) && w'.disk.manifest == w.disk.manifest
  {
    match e {
      case ReviveSegment(id) => SegsKeep(w, Next(w, e).disk);
      case ReviveLog(_, _) => KeepDurable(w, Next(w, e));
    }
  }

  lemma ForgetKeeps(w: World)
    requires WorldInv(w) && Enabled(w, Forget)
    ensures WorldInv(Next(w, Forget))
  {
  }

  /** A manifest written over persisted segments saves exactly the memory. */
  lemma CommitSaves(w: World)
    requires WorldInv(w) && Enabled(w, Commit(Success))
    ensures var d := Committed(w.disk, w.writer.value);
            && Saved(d, w.writer.value.mem) && Load(d) == Some(w.writer.value.mem)
            && Catalog(d) == Some(SnapshotOf(w.writer.value.mem))
            && CurLog(d) == Log([], 0)
  {
    var wr := w.writer.value;
    var d := Committed(w.disk, wr);
    assert FilesPresent(wr.mem.segmentIds, d.segs);
    assert Files(wr.mem.segmentIds, d.segs) == wr.mem.segments;
    LoadSaved(d, wr.mem);
  }

  /** What a successful commit leaves: the new manifest saves memory, with an empty log. */
  ghost predicate Fresh(w': World, wr: Writer) {
    && Saved(w'.disk, wr.mem) && CurLog(w'.disk) == Log([], 0)
    && Epoch(w'.disk) == wr.epoch + 1
    && w'.done == wr.memAt && w'.logAt == []
  }

  lemma CommitIsFresh(w: World)
    requires WorldInv(w) && Enabled(w, Commit(Success))
    ensures Fresh(Next(w, Commit(Success)), w.writer.value)
  {
    CommitSaves(w);
  }

  lemma CommitNames(w: World, fault: Fault)
    requires WorldInv(w) && Enabled(w, Commit(fault)) && !fault.Absent?
    ensures NamesOk(Next(w, Commit(fault)))
  {
    var w' := Next(w, Commit(fault));
    var mem := w.writer.value.mem;
    forall k | k in mem.segmentIds ensures k in w.disk.segs && k < mem.nextSegId {
      var i :| 0 <= i < |mem.segmentIds| && mem.segmentIds[i] == k;
    }
    assert NextId(w'.disk) == mem.nextSegId && NamedIds(w'.disk) == mem.segmentIds;
    forall k | k in w'.named && k in w'.disk.segs ensures w'.disk.segs[k] == w'.named[k] {}
  }

  lemma CommitKeeps(w: World, fault: Fault)
    requires WorldInv(w) && Enabled(w, Commit(fault))
    ensures WorldInv(Next(w, Commit(fault)))
  {
    var wr := w.writer.value;
    var w' := Next(w, Commit(fault));
    CommitFiles(w.disk, w'.disk, wr, w'.writer.value);
    if !fault.Absent? { CommitLands(w, fault); }
  }

  /** The durable side of a manifest write that reached the disk, refused or not. */
  lemma CommitLands(w: World, fault: Fault)
    requires WorldInv(w) && Enabled(w, Commit(fault)) && !fault.Absent?
    ensures var w' := Next(w, Commit(fault)); HistoryOk(w') && ManifestOk(w') && NamesOk(w')
  {
    CommitSaves(w);
    CommitNames(w, fault);
    CommitHistory(w, Next(w, Commit(fault)));
  }

  lemma CommitFiles(d: Disk, d': Disk, wr: Writer, wr': Writer)
    requires FilesOk(d, wr) && d'.segs == d.segs && wr'.mem == wr.mem && wr'.persisted == wr.persisted
    requires forall i :: 0 <= i < |wr.mem.segmentIds| ==> wr.mem.segmentIds[i] in wr.persisted
    requires d'.manifest == d.manifest || d'.manifest == Some(ManifestOf(wr.mem, wr.epoch + 1))
    ensures FilesOk(d', wr')
  {
  }

  /** Everything synced is in memory, so the new manifest covers it. */
  lemma CommitCovers(w: World)
    requires HistoryOk(w) && Enabled(w, Commit(Success)) && WriterOk(w, w.writer.value)
    ensures forall p: nat :: p < |w.hist| && w.hist[p].must ==> p in w.writer.value.memAt
  {
    var wr := w.writer.value;
    var all := w.done + w.logAt;
    forall p: nat | p < |w.hist| && w.hist[p].must ensures p in wr.memAt {
      if p in w.done {
        var i :| 0 <= i < |w.done| && w.done[i] == p;
        assert wr.memAt[i] == all[i];
      } else {
        var i :| 0 <= i < CurLog(w.disk).synced && w.logAt[..CurLog(w.disk).synced][i] == p;
        assert wr.memAt[|w.done| + i] == all[|w.done| + i];
      }
    }
  }

  lemma CommitHistory(w: World, w': World)
    requires HistoryOk(w) && Enabled(w, Commit(Success)) && WriterOk(w, w.writer.value)
    requires w'.hist == w.hist && w'.done == w.writer.value.memAt && w'.logAt == [] && CurLog(w'.disk) == Log([], 0)
    ensures HistoryOk(w')
  {
    CommitCovers(w);
    assert w'.done + w'.logAt == w.writer.value.memAt;
  }

  lemma PublishKeeps(w: World)
    requires WorldInv(w) && Enabled(w, Publish)
    ensures WorldInv(Next(w, Publish))
  {
  }

  // ---------------------------------------------------------------------------
  // Opening
  // ---------------------------------------------------------------------------

  /** Replay leaves the loaded segments in place and numbers new ones from the next id. */
  lemma {:induction false} ReplayExtends(m: Mem, ops: seq<Op>, threshold: nat)
    requires |m.segments| == |m.segmentIds|
    ensures var m' := Replay(m, ops, threshold);
            && |m'.segments| == |m'.segmentIds|
            && m.nextSegId <= m'.nextSegId
            && m.segments <= m'.segments && m.segmentIds <= m'.segmentIds
            && (forall i :: |m.segmentIds| <= i < |m'.segmentIds| ==> m'.segmentIds[i] >= m.nextSegId)
    decreases |ops|
  {
    if ops != [] {
      var n := |ops| - 1;
      ReplayExtends(m, ops[..n], threshold);
      ApplyTables(Replay(m, ops[..n], threshold), ops[n]);
    }
  }

  lemma OpenFiles(d: Disk, threshold: nat)
    requires Load(d).Some? && MemInv(Load(d).value)
    ensures var m := Load(d).value;
            var ids := NamedIds(d);
            forall wr: Writer ::
              wr.mem == Replay(m, CurLog(d).recs, threshold) && wr.persisted == (set k | k in ids) ==> FilesOk(d, wr)
  {
    var m := Load(d).value;
    var m' := Replay(m, CurLog(d).recs, threshold);
    ReplayExtends(m, CurLog(d).recs, threshold);
    assert m.segmentIds == NamedIds(d) && m.nextSegId == NextId(d);
    forall i | 0 <= i < |m'.segmentIds|
      ensures m'.segmentIds[i] in NamedIds(d) ==>
                m'.segmentIds[i] in d.segs && d.segs[m'.segmentIds[i]] == m'.segments[i]
      ensures m'.segmentIds[i] < NextId(d) ==> m'.segmentIds[i] in NamedIds(d)
    {
      if i < |m.segmentIds| {
        assert m'.segmentIds[i] == m.segmentIds[i] && m'.segments[i] == m.segments[i];
      }
    }
  }

  lemma OpenKeeps(w: World, threshold: nat)
    requires WorldInv(w) && Enabled(w, Open(threshold))
    ensures WorldInv(Next(w, Open(threshold)))
  {
    var m := Load(w.disk).value;
    FoldLog(w, |w.logAt|);
    assert w.logAt[..|w.logAt|] == w.logAt && CurLog(w.disk).recs[..|w.logAt|] == CurLog(w.disk).recs;
    ReplayRefines(m, CurLog(w.disk).recs, threshold, FoldAt(w.hist, w.done));
    OpenFiles(w.disk, threshold);
    assert (w.done + w.logAt)[..|w.done + w.logAt|] == w.done + w.logAt;
  }

  // ---------------------------------------------------------------------------
  // All steps
  // ---------------------------------------------------------------------------

  lemma StepKeeps(w: World, e: Event)
    requires WorldInv(w) && Enabled(w, e)
    ensures WorldInv(Next(w, e))
  {
    match e {
      case Refuse(op) => RefuseKeeps(w, op);
      case Append(op, fault) => AppendKeeps(w, op, fault);
      case Sync(ok) => SyncKeeps(w, ok);
      case ApplyLogged => ApplyKeeps(w);
      case SealBuffer => SealKeeps(w);
      case AllocId => AllocKeeps(w);
      case WriteSegment(id, seg, fault) => WriteSegmentKeeps(w, id, seg, fault);
      case SwapGroup(indices, id) => SwapKeeps(w, indices, id);
      case Purge => PurgeKeeps(w);
      case Commit(fault) => CommitKeeps(w, fault);
      case Forget => ForgetKeeps(w);
      case RemoveSegment(id) => RemoveSegmentKeeps(w, id);
      case RemoveLog(epoch) => RemoveLogKeeps(w, epoch);
      case Publish => PublishKeeps(w);
      case Crash(kept) => CrashKeeps(w, kept);
      case ReviveSegment(_) => ReviveKeeps(w, e);
      case ReviveLog(_, _) => ReviveKeeps(w, e);
      case Open(threshold) => OpenKeeps(w, threshold);
    }
  }
}
