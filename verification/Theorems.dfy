/** What holds of every run: any sequence of enabled steps from an empty directory,
    with crashes and reopenings anywhere in it. */
module Theorems {
  import opened Base
  import opened Memory
  import opened Refinement
  import opened Recovery
  import opened Disk
  import opened Protocol
  import opened Safety

  /** Every event of the run was enabled when it happened. */
  ghost predicate LegalFrom(w: World, events: seq<Event>)
    decreases |events|, 0
  {
    events == [] ||
    (LegalFrom(w, events[..|events| - 1]) && Enabled(RunFrom(w, events[..|events| - 1]), events[|events| - 1]))
  }

  ghost function RunFrom(w: World, events: seq<Event>): World
    requires LegalFrom(w, events)
    decreases |events|, 1
  {
    if events == [] then w else Next(RunFrom(w, events[..|events| - 1]), events[|events| - 1])
  }

  ghost predicate Legal(events: seq<Event>) { LegalFrom(START, events) }

  ghost function RunOf(events: seq<Event>): World
    requires Legal(events)
  {
    RunFrom(START, events)
  }

  lemma {:induction false} RunSplit(w: World, a: seq<Event>, b: seq<Event>)
    requires LegalFrom(w, a + b)
    ensures LegalFrom(w, a) && LegalFrom(RunFrom(w, a), b)
    ensures RunFrom(w, a + b) == RunFrom(RunFrom(w, a), b)
    decreases |b|
  {
    if b == [] {
      assert a + b == a;
    } else {
      var n := |b| - 1;
      assert (a + b)[..|a + b| - 1] == a + b[..n];
      RunSplit(w, a, b[..n]);
    }
  }

  /** The same run written out world by world, as the directory object records it. */
  ghost predicate StepAt(trace: seq<World>, events: seq<Event>, i: nat)
    requires |trace| == |events| + 1 && i < |events|
  {
    Enabled(trace[i], events[i]) && trace[i + 1] == Next(trace[i], events[i])
  }

  ghost predicate IsTrace(trace: seq<World>, events: seq<Event>) {
    |trace| == |events| + 1 && trace[0] == START && forall i: nat :: i < |events| ==> StepAt(trace, events, i)
  }

  lemma {:induction false} TraceIsRun(trace: seq<World>, events: seq<Event>)
    requires IsTrace(trace, events)
    ensures Legal(events) && RunOf(events) == trace[|events|]
    decreases |events|
  {
    if events != [] {
      var n := |events| - 1;
      var t0, es0 := trace[..n + 1], events[..n];
      forall i: nat | i < n ensures StepAt(t0, es0, i) {
        assert StepAt(trace, events, i);
      }
      TraceIsRun(t0, es0);
      assert StepAt(trace, events, n);
    }
  }

  lemma TraceNext(trace: seq<World>, events: seq<Event>, e: Event)
    requires IsTrace(trace, events) && Enabled(trace[|events|], e)
    ensures IsTrace(trace + [Next(trace[|events|], e)], events + [e])
  {
    var t', es' := trace + [Next(trace[|events|], e)], events + [e];
    forall i: nat | i < |es'| ensures StepAt(t', es', i) {
      if i < |events| { assert StepAt(trace, events, i); }
    }
  }

  lemma {:induction false} RunKeeps(w: World, events: seq<Event>)
    requires WorldInv(w) && LegalFrom(w, events)
    ensures WorldInv(RunFrom(w, events))
    decreases |events|
  {
    if events != [] {
      RunKeeps(w, events[..|events| - 1]);
      StepKeeps(RunFrom(w, events[..|events| - 1]), events[|events| - 1]);
    }
  }

  /** The disk protocol, the four liveness tables and the history agree after every
      step of every run, also in the middle of a checkpoint or of garbage collection. */
  lemma Reachable(events: seq<Event>)
    requires Legal(events)
    ensures WorldInv(RunOf(events))
  {
    assert Represents(EMPTY_MEM, map[]);
    assert WorldInv(START);
    RunKeeps(START, events);
  }

  /** The ids of every manifest that a run leaves on disk ascend, so a catalog can look
      them up by binary search. */
  lemma ManifestAscends(events: seq<Event>)
    requires Legal(events)
    ensures Increasing(NamedIds(RunOf(events).disk))
  {
    Reachable(events);
    var d := RunOf(events).disk;
    assert d.manifest.Some? ==> Load(d).value.segmentIds == NamedIds(d);
  }

  // ---------------------------------------------------------------------------
  // Crash recovery
  // ---------------------------------------------------------------------------

  /** Recovery never fails, and returns the fold of a selection of the issued
      operations: all synced ones, in order, and none that was never issued. */
  lemma RecoverSelects(w: World, kept: nat, threshold: nat)
    requires WorldInv(w) && CurLog(w.disk).synced <= kept <= |w.logAt|
    ensures var at := w.done + w.logAt[..kept];
            && Selection(w.hist, at)
            && Recover(Torn(w.disk, kept), threshold).Some?
            && MemInv(Recover(Torn(w.disk, kept), threshold).value)
            && Represents(Recover(Torn(w.disk, kept), threshold).value, FoldAt(w.hist, at))
  {
    var d := Torn(w.disk, kept);
    PrefixSelects(w, kept);
    FoldLog(w, kept);
    LoadByNames(w.disk, d);
    ReplayRefines(Load(d).value, CurLog(d).recs, threshold, FoldAt(w.hist, w.done));
    assert CurLog(d).recs == CurLog(w.disk).recs[..kept];
  }

  /** What opening applies is a selection too. */
  lemma WholeLogSelects(w: World)
    requires WorldInv(w)
    ensures Selection(w.hist, w.done + w.logAt)
    ensures CurLog(w.disk).synced <= |w.logAt|
  {
    PrefixSelects(w, |w.logAt|);
    assert w.logAt[..|w.logAt|] == w.logAt;
  }

  lemma CrashRecovery(events: seq<Event>, kept: nat, threshold: nat)
    requires Legal(events)
    requires var w := RunOf(events); CurLog(w.disk).synced <= kept <= |CurLog(w.disk).recs|
    ensures var w := RunOf(events);
            var d := Torn(w.disk, kept);
            && Recover(d, threshold).Some? && MemInv(Recover(d, threshold).value)
            && exists at :: Selection(w.hist, at) && Represents(Recover(d, threshold).value, FoldAt(w.hist, at))
  {
    Reachable(events);
    RecoverSelects(RunOf(events), kept, threshold);
  }

  /** The history only grows, and a synced operation stays required for ever. */
  lemma {:induction false} SyncedForever(w: World, more: seq<Event>)
    requires LegalFrom(w, more)
    ensures SameOps(w.hist, RunFrom(w, more).hist)
    ensures forall p: nat :: p < |w.hist| && w.hist[p].must ==> RunFrom(w, more).hist[p].must
    decreases |more|
  {
    if more != [] {
      SyncedForever(w, more[..|more| - 1]);
    }
  }

  /** Every acknowledged operation survives: once record `p` is synced, at any point of a
      run, then after any continuation and any crash the recovered map folds a selection
      that contains it. */
  lemma AcknowledgedSurvives(events: seq<Event>, more: seq<Event>, p: nat, kept: nat, threshold: nat)
    requires Legal(events + more)
    requires CurLog(RunOf(events + more).disk).synced <= kept <= |CurLog(RunOf(events + more).disk).recs|
    ensures Legal(events)
    ensures var w, w' := RunOf(events), RunOf(events + more);
            p < |w.hist| && w.hist[p].must ==>
              && p < |w'.hist| && w'.hist[p].op == w.hist[p].op
              && Recover(Torn(w'.disk, kept), threshold).Some?
              && exists at :: Selection(w'.hist, at) && p in at
                              && Represents(Recover(Torn(w'.disk, kept), threshold).value, FoldAt(w'.hist, at))
  {
    RunSplit(START, events, more);
    var w, w' := RunOf(events), RunOf(events + more);
    SyncedForever(w, more);
    CrashRecovery(events + more, kept, threshold);
    var at :| Selection(w'.hist, at) && Represents(Recover(Torn(w'.disk, kept), threshold).value, FoldAt(w'.hist, at));
    assert p < |w.hist| && w.hist[p].must ==> w'.hist[p].must && p in at;
  }

  // ---------------------------------------------------------------------------
  // Ambiguous commits and poisoned writers
  // ---------------------------------------------------------------------------

  /** From the manifest just written: the map in memory, whatever is in the old log. */
  lemma NewManifestRecovers(w: World, t: nat)
    requires WorldInv(w) && Enabled(w, Commit(Success))
    ensures var d := Committed(w.disk, w.writer.value);
            Recover(d, t).Some? && Represents(Recover(d, t).value, FoldAt(w.hist, w.writer.value.memAt))
  {
    CommitSaves(w);
  }

  /** Memory folds the manifest's operations and the applied part of the log. */
  lemma MemoryFold(w: World)
    requires WorldInv(w) && Enabled(w, Commit(Success))
    ensures 0 <= Applied(w) <= |w.logAt| == |CurLog(w.disk).recs|
    ensures FoldAt(w.hist, w.writer.value.memAt) == Fold(FoldAt(w.hist, w.done), CurLog(w.disk).recs[..Applied(w)])
  {
    var memAt := w.writer.value.memAt;
    assert memAt == (w.done + w.logAt)[..|memAt|];
    assert memAt == w.done + w.logAt[..Applied(w)];
    FoldLog(w, Applied(w));
  }

  lemma ReplayPast(m: Mem, recs: seq<Op>, a: nat, t: nat, r: RefMap)
    requires MemInv(m) && Represents(m, r) && a <= |recs|
    ensures Represents(Replay(m, recs, t), Fold(Fold(r, recs[..a]), recs[a..]))
  {
    ReplayRefines(m, recs, t, r);
    FoldSplit(r, recs[..a], recs[a..]);
    assert recs[..a] + recs[a..] == recs;
  }

  /** From the old manifest: the map in memory, then the logged operations not applied. */
  lemma OldManifestRecovers(w: World, t: nat)
    requires WorldInv(w) && Enabled(w, Commit(Success))
    ensures 0 <= Applied(w) <= |CurLog(w.disk).recs|
    ensures Recover(w.disk, t).Some?
    ensures Represents(Recover(w.disk, t).value,
                       Fold(FoldAt(w.hist, w.writer.value.memAt), CurLog(w.disk).recs[Applied(w)..]))
  {
    MemoryFold(w);
    ReplayPast(Load(w.disk).value, CurLog(w.disk).recs, Applied(w), t, FoldAt(w.hist, w.done));
  }

  lemma UnappliedUnsynced(w: World)
    requires WorldInv(w) && Enabled(w, Commit(Success))
    ensures forall i :: Applied(w) <= i < |w.logAt| ==> !w.hist[w.logAt[i]].must
  {
    var all, memAt := w.done + w.logAt, w.writer.value.memAt;
    CommitCovers(w);
    forall i | Applied(w) <= i < |w.logAt| ensures w.logAt[i] !in memAt {
      assert all[|w.done| + i] == w.logAt[i];
      assert forall j :: 0 <= j < |memAt| ==> memAt[j] == all[j];
    }
  }

  /** If the manifest write fails, it does not matter which manifest is on disk: the
      old one with its log yields the new one's map followed by the logged operations
      that were never applied, which are operations that returned an error. */
  lemma AmbiguousCommit(w: World, t1: nat, t2: nat)
    requires WorldInv(w) && Enabled(w, Commit(Present)) && Enabled(w, Commit(Absent))
    ensures var oldDisk, newDisk := Next(w, Commit(Absent)).disk, Next(w, Commit(Present)).disk;
            var r := FoldAt(w.hist, w.writer.value.memAt);
            && 0 <= Applied(w) <= |CurLog(w.disk).recs|
            && Recover(newDisk, t2).Some? && Represents(Recover(newDisk, t2).value, r)
            && Recover(oldDisk, t1).Some?
            && Represents(Recover(oldDisk, t1).value, Fold(r, CurLog(w.disk).recs[Applied(w)..]))
            && (forall i :: Applied(w) <= i < |w.logAt| ==> !w.hist[w.logAt[i]].must)
  {
    assert Enabled(w, Commit(Success));
    NewManifestRecovers(w, t2);
    OldManifestRecovers(w, t1);
    UnappliedUnsynced(w);
  }

  ghost predicate NoCrash(events: seq<Event>) { forall i :: 0 <= i < |events| ==> !events[i].Crash? }

  ghost predicate StillPoisoned(w: World, w': World) {
    && w'.writer.Some? && w'.writer.value.poisoned
    && w'.disk.manifest == w.disk.manifest && CurLog(w'.disk) == CurLog(w.disk)
    && w'.done == w.done && w'.logAt == w.logAt
    && w.hist <= w'.hist
    && (forall p: nat :: |w.hist| <= p < |w'.hist| ==> !w'.hist[p].must)
  }

  lemma PoisonedStep(w: World, e: Event)
    requires w.writer.Some? && w.writer.value.poisoned && Enabled(w, e) && !e.Crash?
    ensures StillPoisoned(w, Next(w, e))
  {
    var w' := Next(w, e);
    if e.RemoveLog? {
      assert CurLog(w'.disk) == CurLog(w.disk);
    } else if !e.Refuse? {
      assert w'.hist == w.hist;
    }
  }

  /** A poisoned writer acknowledges nothing and never moves the commit point, whatever
      is asked of it, until the store is reopened. */
  lemma {:induction false} PoisonedForGood(w: World, more: seq<Event>)
    requires w.writer.Some? && w.writer.value.poisoned
    requires LegalFrom(w, more) && NoCrash(more)
    ensures StillPoisoned(w, RunFrom(w, more))
    decreases |more|
  {
    if more != [] {
      PoisonedForGood(w, more[..|more| - 1]);
      PoisonedStep(RunFrom(w, more[..|more| - 1]), more[|more| - 1]);
    }
  }

  // ---------------------------------------------------------------------------
  // Readers
  // ---------------------------------------------------------------------------

  lemma LoadShows(d: Disk, r: RefMap)
    requires Load(d).Some? && Represents(Load(d).value, r)
    ensures Shows(SnapshotOf(Load(d).value), r)
  {
    var m := Load(d).value;
    var s := SnapshotOf(m);
    var v := Mem([], s.segments, s.segmentIds, s.tombstones, {}, s.superseded, map[], 0);
    forall e ensures Visible(v, e) <==> Visible(m, e) {
      assert forall i: nat :: LiveSealed(v, i, e) <==> LiveSealed(m, i, e);
    }
  }

  /** A fresh catalog always shows the map of the operations the manifest covers; so
      does a fresh view, outside a checkpoint in progress or a failed manifest write. */
  lemma ReadersAgree(events: seq<Event>)
    requires Legal(events)
    ensures var w := RunOf(events);
            && Within(w.done, |w.hist|)
            && Catalog(w.disk).Some? && Shows(Catalog(w.disk).value, FoldAt(w.hist, w.done))
            && (w.writer.Some? && !w.writer.value.poisoned && !w.writer.value.stale ==>
                  w.writer.value.published == Catalog(w.disk).value)
  {
    var w := RunOf(events);
    Reachable(events);
    LoadShows(w.disk, FoldAt(w.hist, w.done));
  }

  // ---------------------------------------------------------------------------
  // Segment ids
  // ---------------------------------------------------------------------------

  lemma NamedStep(w: World, e: Event)
    requires NamesOk(w) && Enabled(w, e)
    ensures forall k :: k in w.named ==> k in Next(w, e).named && Next(w, e).named[k] == w.named[k]
  {
    if e.Commit? && !e.fault.Absent? {
      var mem := w.writer.value.mem;
      var added := map k | k in mem.segmentIds && k in w.disk.segs :: w.disk.segs[k];
      assert Next(w, e).named == w.named + added;
      assert forall k :: k in w.named && k in added ==> w.named[k] == added[k];
    } else {
      assert Next(w, e).named == w.named;
    }
  }

  lemma {:induction false} NamedForever(w: World, more: seq<Event>)
    requires WorldInv(w) && LegalFrom(w, more)
    ensures forall k :: k in w.named ==> k in RunFrom(w, more).named && RunFrom(w, more).named[k] == w.named[k]
    decreases |more|
  {
    if more != [] {
      var init := more[..|more| - 1];
      NamedForever(w, init);
      RunKeeps(w, init);
      NamedStep(RunFrom(w, init), more[|more| - 1]);
    }
  }

  /** An id a manifest named never denotes other contents, in this or any later run of
      the store, whatever orphan files crashes leave behind. */
  lemma IdsNeverReused(events: seq<Event>, more: seq<Event>)
    requires Legal(events + more)
    ensures Legal(events)
    ensures var w, w' := RunOf(events), RunOf(events + more);
            forall k :: k in NamedIds(w.disk) && k in w'.disk.segs ==>
                          k in w.disk.segs && w'.disk.segs[k] == w.disk.segs[k]
  {
    RunSplit(START, events, more);
    Reachable(events);
    Reachable(events + more);
    NamedForever(RunOf(events), more);
  }

  // ---------------------------------------------------------------------------
  // Exact replay
  // ---------------------------------------------------------------------------

  /** Reopening now would rebuild the identical memory. */
  ghost predicate InStep(w: World, threshold: nat) {
    && Logging(w) && Applied(w) == |w.logAt|
    && |w.writer.value.mem.buffer| < Max(1, threshold)
    && Recover(w.disk, threshold) == Some(w.writer.value.mem)
  }

  /** The steps of one live write, by `add` and `delete` (which sync before applying) or
      by one item of `extend` (which does not). */
  ghost function WriteEvents(w: World, op: Op, sync: bool, threshold: nat): seq<Event>
    requires w.writer.Some?
  {
    [Append(op, Success)] + (if sync then [Sync(true)] else []) + [ApplyLogged]
      + (if op.Add? && |Apply(w.writer.value.mem, op).buffer| >= threshold then [SealBuffer] else [])
  }

  /** The checkpoint starts it: right after a commit, reopening gives the same memory. */
  lemma CommitInStep(w: World, threshold: nat)
    requires WorldInv(w) && Enabled(w, Commit(Success))
    ensures InStep(Next(w, Commit(Success)), threshold)
  {
    CommitSaves(w);
  }

  lemma LegalNext(w: World, events: seq<Event>, e: Event)
    requires LegalFrom(w, events) && Enabled(RunFrom(w, events), e)
    ensures LegalFrom(w, events + [e]) && RunFrom(w, events + [e]) == Next(RunFrom(w, events), e)
  {
    assert (events + [e])[..|events + [e]| - 1] == events;
  }

  /** The record is in the log, synced or not, and not yet applied. */
  ghost predicate Logged(w: World, op: Op, w': World) {
    && Logging(w) && w'.writer == w.writer && w'.done == w.done
    && w'.disk.manifest == w.disk.manifest && w'.disk.segs == w.disk.segs
    && CurLog(w'.disk).recs == CurLog(w.disk).recs + [op]
    && w'.logAt == w.logAt + [|w.hist|]
  }

  /** The history after issuing `op`; a sync marks everything logged so far. */
  ghost function IssuedAt(w: World, op: Op, sync: bool): (h: seq<Rec>)
    ensures |h| == |w.hist| + 1 && h[|w.hist|] == Rec(op, sync)
  {
    var h := w.hist + [Rec(op, false)];
    var at := w.logAt + [|w.hist|];
    assert |w.hist| in at;
    if sync then MarkSynced(h, at) else h
  }

  lemma LogRun(w: World, op: Op, sync: bool)
    requires Logging(w) && Applied(w) == |w.logAt|
    ensures var es := [Append(op, Success)] + (if sync then [Sync(true)] else []);
            && LegalFrom(w, es) && Logged(w, op, RunFrom(w, es))
            && RunFrom(w, es).hist == IssuedAt(w, op, sync)
  {
    var append := [Append(op, Success)];
    LegalNext(w, [], Append(op, Success));
    assert [] + append == append;
    if sync { LegalNext(w, append, Sync(true)); } else { assert append + [] == append; }
  }

  /** The state after logging, syncing, applying and sealing one write. */
  lemma WriteRun(w: World, op: Op, sync: bool, threshold: nat)
    requires Logging(w) && Applied(w) == |w.logAt| == |CurLog(w.disk).recs|
    ensures var es := WriteEvents(w, op, sync, threshold);
            && LegalFrom(w, es)
            && var w', wr := RunFrom(w, es), w.writer.value;
            && Logged(w, op, w'.(writer := w.writer))
            && w'.writer == Some(wr.(mem := LiveWrite(wr.mem, op, threshold), memAt := wr.memAt + [|w.hist|]))
            && w'.hist == IssuedAt(w, op, sync)
  {
    var logged := [Append(op, Success)] + (if sync then [Sync(true)] else []);
    LogRun(w, op, sync);
    var w1 := RunFrom(w, logged);
    assert Applied(w1) == |w.logAt| && CurLog(w1.disk).recs[|w.logAt|] == op && w1.logAt[|w.logAt|] == |w.hist|;
    LegalNext(w, logged, ApplyLogged);
    if op.Add? && |Apply(w.writer.value.mem, op).buffer| >= threshold {
      LegalNext(w, logged + [ApplyLogged], SealBuffer);
    } else {
      assert logged + [ApplyLogged] + [] == logged + [ApplyLogged];
    }
  }

  /** Every further add, extend item or delete keeps it: live writes and replay reach
      the identical segments, ids, buffer, tombstones, superseded sets and owners. */
  lemma WriteInStep(w: World, op: Op, sync: bool, threshold: nat)
    requires WorldInv(w) && InStep(w, threshold)
    ensures LegalFrom(w, WriteEvents(w, op, sync, threshold))
    ensures InStep(RunFrom(w, WriteEvents(w, op, sync, threshold)), threshold)
  {
    WriteRun(w, op, sync, threshold);
    var w' := RunFrom(w, WriteEvents(w, op, sync, threshold));
    LoadByNames(w.disk, w'.disk);
    var recs, recs' := CurLog(w.disk).recs, CurLog(w'.disk).recs;
    assert recs'[..|recs'| - 1] == recs && recs'[|recs'| - 1] == op;
    var m := w.writer.value.mem;
    assert [op][..|[op]| - 1] == [];
    assert Replay(m, [op], threshold) == ApplySeal(Replay(m, [], threshold), op, threshold);
    assert LiveRun(m, [op], threshold) == LiveWrite(LiveRun(m, [], threshold), op, threshold);
    ReplayIsLiveRun(m, [op], threshold);
  }

  /** Two runs that reach the same world can take the same next step. */
  lemma SameStep(w: World, a: seq<Event>, v: World, b: seq<Event>, e: Event)
    requires LegalFrom(w, a) && LegalFrom(v, b) && RunFrom(w, a) == RunFrom(v, b) && LegalFrom(v, b + [e])
    ensures LegalFrom(w, a + [e]) && RunFrom(w, a + [e]) == RunFrom(v, b + [e])
  {
    assert (a + [e])[..|a|] == a && (b + [e])[..|b|] == b;
  }

  lemma {:induction false} RunJoin(w: World, a: seq<Event>, mid: World, b: seq<Event>)
    requires LegalFrom(w, a) && RunFrom(w, a) == mid && LegalFrom(mid, b)
    ensures LegalFrom(w, a + b) && RunFrom(w, a + b) == RunFrom(mid, b)
    decreases |b|
  {
    if b == [] {
      assert a + b == a;
    } else {
      var init, e := b[..|b| - 1], b[|b| - 1];
      assert b == init + [e] && a + b == (a + init) + [e];
      RunJoin(w, a, mid, init);
      SameStep(w, a + init, mid, init, e);
    }
  }

  /** The steps of a run of writes, each synced at once or not. */
  ghost function RunEvents(w: World, writes: seq<(Op, bool)>, threshold: nat): (es: seq<Event>)
    requires WorldInv(w) && InStep(w, threshold)
    ensures LegalFrom(w, es) && WorldInv(RunFrom(w, es)) && InStep(RunFrom(w, es), threshold)
    decreases |writes|
  {
    if writes == [] then []
    else
      var first := WriteEvents(w, writes[0].0, writes[0].1, threshold);
      WriteInStep(w, writes[0].0, writes[0].1, threshold);
      RunKeeps(w, first);
      var rest := RunEvents(RunFrom(w, first), writes[1..], threshold);
      RunJoin(w, first, RunFrom(w, first), rest);
      first + rest
  }

  /** Exact replay over whole runs: after a checkpoint and any run of adds, extends and
      deletes without auto-compaction, reopening with the same threshold reproduces the
      identical memory, field by field. */
  lemma ExactReplayRun(w: World, writes: seq<(Op, bool)>, threshold: nat)
    requires WorldInv(w) && Enabled(w, Commit(Success))
    ensures var w1 := Next(w, Commit(Success));
            && WorldInv(w1) && InStep(w1, threshold)
            && var w2 := RunFrom(w1, RunEvents(w1, writes, threshold));
            Recover(w2.disk, threshold) == Some(w2.writer.value.mem)
  {
    CommitInStep(w, threshold);
    CommitKeeps(w, Success);
  }
}
