/** When `add` returns an error although the item was added. */
module Witnesses {
  import opened Base
  import opened Sorting
  import opened Memory
  import opened Refinement
  import opened Merging
  import opened Disk
  import opened Tiering
  import opened Compaction
  import opened Protocol
  import opened Safety
  import opened Theorems

  // ---------------------------------------------------------------------------
  // Wherever a merge is due, an add can fail after adding
  // ---------------------------------------------------------------------------

  /** How many of the first segments have their files. */
  function OnFile(ids: seq<nat>, persisted: set<nat>): (n: nat)
    ensures n <= |ids| && (n < |ids| ==> ids[n] !in persisted)
    ensures forall i :: 0 <= i < n ==> ids[i] in persisted
  {
    if ids == [] || ids[0] !in persisted then 0 else 1 + OnFile(ids[1..], persisted)
  }

  /** The first disk action of a checkpoint, refused: a missing segment file, else the
      manifest. */
  function RefusedSave(m: Mem, persisted: set<nat>): Event
    requires |m.segments| == |m.segmentIds|
  {
    var i := OnFile(m.segmentIds, persisted);
    if i < |m.segmentIds| then WriteSegment(m.segmentIds[i], m.segments[i], Absent) else Commit(Absent)
  }

  /** What merging and the checkpoint after it do up to their first disk action, which is
      refused without effect; a merge whose output is empty writes nothing. */
  function UntilRefused(m: Mem, persisted: set<nat>, threshold: nat, cfg: TierConfig): seq<Event>
    requires |m.segments| == |m.segmentIds|
    decreases |m.segments|
  {
    match SelectGroup(Sizes(m), threshold, cfg)
    case None => [RefusedSave(m, persisted)]
    case Some(g) =>
      SelectedIsGroup(m, threshold, cfg);
      MergeCount(m, g);
      if Merged(m, g) != [] then [AllocId] + [WriteSegment(m.nextSegId, Merged(m, g), Absent)]
      else [SwapGroup(g, 0)] + UntilRefused(MergeGroup(m, g), persisted, threshold, cfg)
  }

  predicate Refusal(e: Event) { (e.WriteSegment? || e.Commit?) && e.fault.Absent? }

  /** Between the operations: everything logged is applied, and the buffer is sealed. */
  ghost predicate Idle(w: World) {
    WorldInv(w) && Logging(w) && Applied(w) == |w.logAt| && w.writer.value.mem.buffer == []
  }

  /** The same operations are issued, synced and in memory. */
  ghost predicate SameMemory(w: World, w': World)
    requires w.writer.Some?
  {
    && WorldInv(w') && w'.hist == w.hist && w'.writer.Some? && w'.writer.value.memAt == w.writer.value.memAt
  }

  lemma OneStep(w: World, e: Event)
    requires WorldInv(w) && Enabled(w, e)
    ensures LegalFrom(w, [e]) && RunFrom(w, [e]) == Next(w, e) && WorldInv(Next(w, e))
  {
    LegalNext(w, [], e);
    assert [] + [e] == [e];
    StepKeeps(w, e);
  }

  lemma SaveRefused(w: World)
    requires Idle(w)
    ensures var e := RefusedSave(w.writer.value.mem, w.writer.value.persisted);
            LegalFrom(w, [e]) && SameMemory(w, RunFrom(w, [e])) && Refusal(e)
  {
    OneStep(w, RefusedSave(w.writer.value.mem, w.writer.value.persisted));
  }

  lemma NewIdIsFree(w: World, seg: Segment)
    requires Idle(w)
    ensures Enabled(w, AllocId)
    ensures Enabled(Next(w, AllocId), WriteSegment(w.writer.value.mem.nextSegId, seg, Absent))
  {
    assert MemInv(w.writer.value.mem) && FilesOk(w.disk, w.writer.value);
  }

  lemma OutputRefused(w: World, seg: Segment)
    requires Idle(w)
    ensures var e := WriteSegment(w.writer.value.mem.nextSegId, seg, Absent);
            && LegalFrom(w, [AllocId] + [e]) && SameMemory(w, RunFrom(w, [AllocId] + [e]))
  {
    var e := WriteSegment(w.writer.value.mem.nextSegId, seg, Absent);
    NewIdIsFree(w, seg);
    LegalNext(w, [], AllocId);
    assert [] + [AllocId] == [AllocId];
    LegalNext(w, [AllocId], e);
    RunKeeps(w, [AllocId] + [e]);
  }

  lemma EmptySwap(w: World, g: seq<nat>)
    requires Idle(w) && Group(w.writer.value.mem, g) && Merged(w.writer.value.mem, g) == []
    ensures LegalFrom(w, [SwapGroup(g, 0)])
    ensures var w1 := RunFrom(w, [SwapGroup(g, 0)]);
            && Idle(w1) && SameMemory(w, w1) && w1.writer.value.persisted == w.writer.value.persisted
            && w1.writer.value.mem == MergeGroup(w.writer.value.mem, g)
  {
    OneStep(w, SwapGroup(g, 0));
  }

  lemma {:induction false} MergingRefused(w: World, threshold: nat, cfg: TierConfig)
    requires Idle(w)
    ensures var es := UntilRefused(w.writer.value.mem, w.writer.value.persisted, threshold, cfg);
            && LegalFrom(w, es) && SameMemory(w, RunFrom(w, es))
            && es != [] && Refusal(es[|es| - 1])
    decreases |w.writer.value.mem.segments|
  {
    var m := w.writer.value.mem;
    match SelectGroup(Sizes(m), threshold, cfg) {
      case None => SaveRefused(w);
      case Some(g) =>
        SelectedIsGroup(m, threshold, cfg);
        MergeCount(m, g);
        if Merged(m, g) != [] {
          OutputRefused(w, Merged(m, g));
        } else {
          EmptySwap(w, g);
          var w1 := RunFrom(w, [SwapGroup(g, 0)]);
          MergingRefused(w1, threshold, cfg);
          RunJoin(w, [SwapGroup(g, 0)], w1,
                  UntilRefused(w1.writer.value.mem, w1.writer.value.persisted, threshold, cfg));
        }
    }
  }

  /** The steps of an `add` whose first disk action after the log is refused. */
  ghost function FailedAdd(w: World, op: Op, threshold: nat, cfg: TierConfig): seq<Event>
    requires w.writer.Some? && |w.writer.value.mem.segments| == |w.writer.value.mem.segmentIds|
  {
    var wr := w.writer.value;
    ApplyTables(wr.mem, op);
    WriteEvents(w, op, true, threshold) + UntilRefused(Seal(Apply(wr.mem, op)), wr.persisted, threshold, cfg)
  }

  /** The write itself: the item is durable and in memory, and the buffer is sealed. */
  lemma AddSucceeds(w: World, op: Op, threshold: nat)
    requires WorldInv(w) && Logging(w) && Applied(w) == |w.logAt| && op.Add?
    requires |Apply(w.writer.value.mem, op).buffer| >= threshold
    ensures LegalFrom(w, WriteEvents(w, op, true, threshold))
    ensures var w', wr := RunFrom(w, WriteEvents(w, op, true, threshold)), w.writer.value;
            && Idle(w') && w'.hist == IssuedAt(w, op, true)
            && w'.writer == Some(wr.(mem := Seal(Apply(wr.mem, op)), memAt := wr.memAt + [|w.hist|]))
  {
    WriteRun(w, op, true, threshold);
    RunKeeps(w, WriteEvents(w, op, true, threshold));
  }

  lemma MapAfterAdd(w: World, w': World, op: Op)
    requires WorldInv(w) && w.writer.Some? && WorldInv(w') && w'.writer.Some?
    requires w'.hist == IssuedAt(w, op, true) && w'.writer.value.memAt == w.writer.value.memAt + [|w.hist|]
    ensures Represents(w'.writer.value.mem, Step(FoldAt(w.hist, w.writer.value.memAt), op))
  {
    FoldStable(w.hist, w'.hist, w.writer.value.memAt);
    FoldNext(w'.hist, w.writer.value.memAt, |w.hist|);
  }

  /** An error from `add` does not mean that the item was not added. From every state in
      which the add makes a merge due, its first disk action after the log can be refused;
      then the item is durable, required by every recovery, and in the map. */
  lemma AddErrsAfterAdding(w: World, op: Op, threshold: nat, cfg: TierConfig)
    requires WorldInv(w) && Logging(w) && Applied(w) == |w.logAt| && op.Add?
    requires MergeDue(Apply(w.writer.value.mem, op), threshold, cfg)
    ensures var es := FailedAdd(w, op, threshold, cfg);
            && LegalFrom(w, es) && es != [] && Refusal(es[|es| - 1])
            && var w' := RunFrom(w, es);
            && |w'.hist| == |w.hist| + 1 && w'.hist[|w.hist|] == Rec(op, true)
            && w'.writer.Some?
            && Represents(w'.writer.value.mem, Step(FoldAt(w.hist, w.writer.value.memAt), op))
  {
    AddSucceeds(w, op, threshold);
    var first := WriteEvents(w, op, true, threshold);
    var w1 := RunFrom(w, first);
    MergingRefused(w1, threshold, cfg);
    RunJoin(w, first, w1, UntilRefused(w1.writer.value.mem, w1.writer.value.persisted, threshold, cfg));
    MapAfterAdd(w, RunFrom(w, FailedAdd(w, op, threshold, cfg)), op);
  }

  const PAIRS := TierConfig(2, 2, 0.5, 1.5, 4)

  // ---------------------------------------------------------------------------
  // Two segments of one item are eligible
  // ---------------------------------------------------------------------------

  lemma PairBucket()
    ensures var c0, c1 := Cand(1, 1.0, 0), Cand(1, 1.0, 1);
            Bucketize([c0, c1], PAIRS) == [Bucket(1.0, [c0, c1])]
  {
    var c0, c1 := Cand(1, 1.0, 0), Cand(1, 1.0, 1);
    assert [c0][..0] == [] && [c0, c1][..1] == [c0];
    assert Bucketize([c0], PAIRS) == [Bucket(1.0, [c0])];
    assert Join(Bucket(1.0, [c0]), c1) == Bucket(1.0, [c0, c1]);
  }

  lemma PairChosen()
    ensures var b := Bucket(1.0, [Cand(1, 1.0, 0), Cand(1, 1.0, 1)]);
            Mergeable(b, PAIRS) && Chosen(b, PAIRS) == b.members
  {
    var ms := [Cand(1, 1.0, 0), Cand(1, 1.0, 1)];
    SortOfSorted(ms, Raw());
    assert TakeCount(ms, PAIRS, 2, 2) == 2;
    assert TakeCount(ms, PAIRS, 1, 1) == 2;
    assert TakeCount(ms, PAIRS, 0, 0) == 2;
    assert ms[..2] == ms;
  }

  lemma PairEligible()
    ensures Eligible([1, 1], 1, PAIRS, 2) == [Cand(1, 1.0, 0), Cand(1, 1.0, 1)]
  {
    assert Eligible([1, 1], 1, PAIRS, 0) == [];
    assert Eligible([1, 1], 1, PAIRS, 1) == [Cand(1, 1.0, 0)];
  }

  lemma PairSorted()
    ensures SortedEligible([1, 1], 1, PAIRS) == [Cand(1, 1.0, 0), Cand(1, 1.0, 1)]
  {
    PairEligible();
    SortOfSorted([Cand(1, 1.0, 0), Cand(1, 1.0, 1)], Size());
  }

  lemma OneBucketSorted(b: Bucket)
    ensures StableSort([b], Avg()) == [b]
  {
    SortOfSorted([b], Avg());
  }

  lemma PairSelected()
    ensures SelectGroup([1, 1], 1, PAIRS) == Some([0, 1])
  {
    var ms := [Cand(1, 1.0, 0), Cand(1, 1.0, 1)];
    var b := Bucket(1.0, ms);
    PairEligible();
    PairSorted();
    PairBucket();
    PairChosen();
    OneBucketSorted(b);
    assert FirstGroup([b], PAIRS) == Some(Positions(ms));
    assert Positions(ms) == [0, 1];
  }

  // ---------------------------------------------------------------------------
  // A run at whose end the next add makes a merge due
  // ---------------------------------------------------------------------------

  /** One add with a flush threshold of one: logged, synced, applied and sealed. */
  function OneAdd(op: Op): seq<Event> { [Append(op, Success)] + [Sync(true)] + [ApplyLogged] + [SealBuffer] }

  /** Between adds everything logged is applied and the buffer is empty. */
  ghost predicate Ready(w: World) {
    && Logging(w) && Applied(w) == |w.logAt| == |CurLog(w.disk).recs|
    && w.writer.value.mem.buffer == [] && w.writer.value.mem.bufferIds == {} && w.disk.manifest.None?
  }

  lemma AddFromSealed(w: World, op: Op)
    requires Ready(w) && op.Add?
    ensures LegalFrom(w, OneAdd(op))
    ensures var w' := RunFrom(w, OneAdd(op));
            && Ready(w') && w'.writer.value.mem == Seal(Apply(w.writer.value.mem, op))
            && |w'.hist| == |w.hist| + 1 && w'.hist[|w.hist|] == Rec(op, true)
  {
    WriteRun(w, op, true, 1);
    assert Apply(w.writer.value.mem, op).buffer == [(op.id, op.item)];
    assert WriteEvents(w, op, true, 1) == OneAdd(op);
  }

  lemma ThenAdd(es: seq<Event>, op: Op)
    requires Legal(es) && Ready(RunOf(es)) && op.Add?
    ensures Legal(es + OneAdd(op))
    ensures var w, w' := RunOf(es), RunOf(es + OneAdd(op));
            && Ready(w') && w'.writer.value.mem == Seal(Apply(w.writer.value.mem, op))
            && |w'.hist| == |w.hist| + 1 && w'.hist[|w.hist|] == Rec(op, true)
  {
    AddFromSealed(RunOf(es), op);
    RunJoin(START, es, RunOf(es), OneAdd(op));
  }

  lemma OneSealed(x: Id, a: Item)
    ensures Seal(Apply(EMPTY_MEM, Add(x, a))) == Mem([], [[(x, a)]], [0], {}, {}, map[], map[x := 0], 1)
  {
    var m := Apply(EMPTY_MEM, Add(x, a));
    assert m.buffer == [(x, a)] && m.tombstones == {} && m.bufferIds == {x};
    assert IdsOf(m.buffer) == {x} by { assert (x, a) in m.buffer; }
    assert Seal(m).segments == [[(x, a)]] && Seal(m).segmentIds == [0] && Seal(m).owners == map[x := 0];
  }

  function TwoSealed(x: Id, y: Id, a: Item): Mem {
    Mem([], [[(x, a)], [(y, a)]], [0, 1], {}, {}, map[], map[x := 0, y := 1], 2)
  }

  lemma TwoAreSealed(x: Id, y: Id, a: Item)
    requires x != y
    ensures Seal(Apply(Mem([], [[(x, a)]], [0], {}, {}, map[], map[x := 0], 1), Add(y, a))) == TwoSealed(x, y, a)
  {
    var m := Apply(Mem([], [[(x, a)]], [0], {}, {}, map[], map[x := 0], 1), Add(y, a));
    assert m.buffer == [(y, a)] && m.tombstones == {} && m.bufferIds == {y};
    assert IdsOf(m.buffer) == {y} by { assert (y, a) in m.buffer; }
    assert Seal(m).owners == map[x := 0, y := 1];
  }

  lemma OpenEmpty()
    ensures Legal([Open(1)])
    ensures var w := RunOf([Open(1)]); Ready(w) && w.hist == [] && w.writer.value.mem == EMPTY_MEM
  {
    LegalNext(START, [], Open(1));
    assert [] + [Open(1)] == [Open(1)];
    assert Replay(EMPTY_MEM, [], 1) == EMPTY_MEM;
  }

  /** So the condition of `AddErrsAfterAdding` can be met: after one add, with a flush
      threshold of one, the next one makes a merge of both segments due. */
  lemma DueAfterOne(x: Id, y: Id, a: Item)
    requires x != y
    ensures var es := [Open(1)] + OneAdd(Add(x, a));
            && Legal(es)
            && var w := RunOf(es);
            && WorldInv(w) && Logging(w) && Applied(w) == |w.logAt|
            && MergeDue(Apply(w.writer.value.mem, Add(y, a)), 1, PAIRS)
  {
    OpenEmpty();
    ThenAdd([Open(1)], Add(x, a));
    OneSealed(x, a);
    TwoAreSealed(x, y, a);
    assert Sizes(TwoSealed(x, y, a)) == [1, 1];
    PairSelected();
    Reachable([Open(1)] + OneAdd(Add(x, a)));
  }
}
