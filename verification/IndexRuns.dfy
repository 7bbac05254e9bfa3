/** The store over the inverted index, which does not list the ids of its segments: over
    every run that adds fresh ids, a query is a scan of the documents. */
module IndexRuns {
  import opened Base
  import opened SortedIds
  import opened InvertedIndex

  datatype IndexMem = IndexMem(
    buffer: seq<Doc>,
    segments: seq<Postings>,
    tombstones: set<nat>,
    bufferIds: set<nat>)

  const EMPTY_INDEX := IndexMem([], [], {}, {})

  datatype IndexOp = AddDoc(id: nat, terms: seq<Term>) | DeleteDoc(id: nat)

  function DropDoc(docs: seq<Doc>, id: nat): (r: seq<Doc>)
    ensures forall d :: d in r <==> d in docs && d.0 != id
  {
    if docs == [] then []
    else
      var n := |docs| - 1;
      assert docs == docs[..n] + [docs[n]];
      if docs[n].0 == id then DropDoc(docs[..n], id) else DropDoc(docs[..n], id) + [docs[n]]
  }

  /** `apply` for a store that tracks no owners. */
  function ApplyDoc(m: IndexMem, op: IndexOp): IndexMem {
    match op
    case AddDoc(id, terms) =>
      var m1 := m.(tombstones := m.tombstones - {id});
      var m2 := if id in m1.bufferIds then m1.(buffer := DropDoc(m1.buffer, id))
                else m1.(bufferIds := m1.bufferIds + {id});
      m2.(buffer := m2.buffer + [(id, terms)])
    case DeleteDoc(id) =>
      var m1 := if id in m.bufferIds
                then m.(bufferIds := m.bufferIds - {id}, buffer := DropDoc(m.buffer, id))
                else m;
      m1.(tombstones := m1.tombstones + {id})
  }

  function Flush(m: IndexMem): IndexMem {
    if m.buffer == [] then m
    else m.(segments := m.segments + [Build(m.buffer)], buffer := [], bufferIds := {})
  }

  function Live(m: IndexMem): nat -> bool { x => x !in m.tombstones }

  /** `merge_group`; an output without documents leaves no segment behind. */
  function MergeAt(m: IndexMem, indices: seq<nat>): IndexMem
    requires Within(indices, |m.segments|)
  {
    var merged := Merge(Pick(m.segments, indices), Live(m));
    KeptInRange(|m.segments|, indices);
    var kept := Pick(m.segments, Outside(|m.segments|, indices));
    m.(segments := if DocIds(merged) == {} then kept else kept + [merged])
  }

  function Outside(n: nat, indices: seq<nat>): seq<nat> { Kept(n, Indices(indices)) }

  lemma KeptInRange(n: nat, indices: seq<nat>)
    ensures Within(Outside(n, indices), n)
  {
    var r := Outside(n, indices);
    forall i | 0 <= i < |r| ensures r[i] < n { assert r[i] in r; }
  }

  function AllIndices(n: nat): (r: seq<nat>)
    ensures |r| == n && forall i :: 0 <= i < n ==> r[i] == i
  {
    seq(n, i requires 0 <= i < n => i)
  }

  /** `compact`. */
  function CompactAll(m: IndexMem): IndexMem {
    var m1 := Flush(m);
    var n := |m1.segments|;
    var m2 := if n > 1 || (n == 1 && m1.tombstones != {}) then MergeAt(m1, AllIndices(n)) else m1;
    m2.(tombstones := {})
  }

  function ReplayDocs(m: IndexMem, log: seq<IndexOp>, threshold: nat): IndexMem {
    if log == [] then m
    else
      var m1 := ApplyDoc(ReplayDocs(m, log[..|log| - 1], threshold), log[|log| - 1]);
      if |m1.buffer| >= threshold then Flush(m1) else m1
  }

  // ---------------------------------------------------------------------------
  // Queries
  // ---------------------------------------------------------------------------

  function BufferHits(docs: seq<Doc>, live: nat -> bool, t: Term): (r: seq<nat>)
    ensures forall x :: x in r <==> live(x) && HasTerm(docs, t, x)
  {
    if docs == [] then []
    else
      var n := |docs| - 1;
      assert docs == docs[..n] + [docs[n]];
      var r := BufferHits(docs[..n], live, t);
      if live(docs[n].0) && t in docs[n].1 then r + [docs[n].0] else r
  }

  function Hits(m: IndexMem, t: Term): seq<nat> {
    Sorted(Gathered(m.segments, Live(m), t) + BufferHits(m.buffer, Live(m), t))
  }

  /** `query`. */
  method Query(m: IndexMem, t: Term) returns (out: seq<nat>)
    ensures out == Hits(m, t)
  {
    out := [];
    var live := Live(m);
    var i := 0;
    while i < |m.segments|
      invariant 0 <= i <= |m.segments| && out == Gathered(m.segments[..i], live, t)
    {
      assert m.segments[..i + 1][..i] == m.segments[..i];
      if t in m.segments[i] { out := out + LiveOnly(m.segments[i][t], live); }
      i := i + 1;
    }
    assert m.segments[..|m.segments|] == m.segments;
    i := 0;
    while i < |m.buffer|
      invariant 0 <= i <= |m.buffer|
      invariant out == Gathered(m.segments, live, t) + BufferHits(m.buffer[..i], live, t)
    {
      assert m.buffer[..i + 1][..i] == m.buffer[..i];
      if live(m.buffer[i].0) && t in m.buffer[i].1 { out := out + [m.buffer[i].0]; }
      i := i + 1;
    }
    assert m.buffer[..|m.buffer|] == m.buffer;
    out := SortDedup(out);
  }

  /** Document `x` is reported for term `t`. */
  ghost predicate Hit(m: IndexMem, t: Term, x: nat) {
    HeldLive(m.segments, Live(m), t, x) || (Live(m)(x) && HasTerm(m.buffer, t, x))
  }

  lemma HitsAreHits(m: IndexMem, t: Term)
    ensures forall x :: x in Hits(m, t) <==> Hit(m, t, x)
  {
  }

  // ---------------------------------------------------------------------------
  // The reference: the documents themselves
  // ---------------------------------------------------------------------------

  type Docs = map<nat, seq<Term>>

  function StepDocs(docs: Docs, op: IndexOp): Docs {
    match op
    case AddDoc(id, terms) => docs[id := terms]
    case DeleteDoc(id) => docs - {id}
  }

  function FoldDocs(docs: Docs, log: seq<IndexOp>): Docs {
    if log == [] then docs else StepDocs(FoldDocs(docs, log[..|log| - 1]), log[|log| - 1])
  }

  function AddedBy(added: set<nat>, log: seq<IndexOp>): set<nat> {
    if log == [] then added
    else
      var a := AddedBy(added, log[..|log| - 1]);
      if log[|log| - 1].AddDoc? then a + {log[|log| - 1].id} else a
  }

  /** No id is added twice. */
  ghost predicate FreshLog(added: set<nat>, log: seq<IndexOp>) {
    log == [] ||
    (FreshLog(added, log[..|log| - 1])
     && (log[|log| - 1].AddDoc? ==> log[|log| - 1].id !in AddedBy(added, log[..|log| - 1])))
  }

  ghost predicate Scans(m: IndexMem, docs: Docs) {
    forall t, x :: Hit(m, t, x) <==> x in docs && t in docs[x]
  }

  ghost predicate SealedWithin(segs: seq<Postings>, added: set<nat>) {
    forall s, t, x :: 0 <= s < |segs| && Holds(segs[s], t, x) ==> x in added
  }

  ghost predicate BufferOk(m: IndexMem, added: set<nat>) {
    && m.bufferIds <= added && m.bufferIds !! m.tombstones
    && (forall d :: d in m.buffer ==> d.0 in m.bufferIds)
  }

  ghost predicate IndexOk(m: IndexMem, docs: Docs, added: set<nat>) {
    Scans(m, docs) && SealedWithin(m.segments, added) && BufferOk(m, added)
  }

  // ---------------------------------------------------------------------------
  // Steps
  // ---------------------------------------------------------------------------

  lemma AddHits(m: IndexMem, id: nat, terms: seq<Term>, added: set<nat>, t: Term, x: nat)
    requires SealedWithin(m.segments, added) && BufferOk(m, added) && id !in added
    ensures Hit(ApplyDoc(m, AddDoc(id, terms)), t, x) <==> if x == id then t in terms else Hit(m, t, x)
  {
    var m' := ApplyDoc(m, AddDoc(id, terms));
    assert m'.buffer == m.buffer + [(id, terms)];
    DocSplit(m.buffer, (id, terms));
    if x == id {
      assert !HasTerm(m.buffer, t, id);
      assert !HeldLive(m'.segments, Live(m'), t, id);
    }
  }

  lemma DeleteHits(m: IndexMem, id: nat, added: set<nat>, t: Term, x: nat)
    requires BufferOk(m, added)
    ensures Hit(ApplyDoc(m, DeleteDoc(id)), t, x) <==> x != id && Hit(m, t, x)
  {
    var m' := ApplyDoc(m, DeleteDoc(id));
    if x != id && HasTerm(m.buffer, t, x) {
      var d :| d in m.buffer && d.0 == x && t in d.1;
      assert d in m'.buffer;
    }
  }

  lemma ApplyDocKeeps(m: IndexMem, op: IndexOp, docs: Docs, added: set<nat>)
    requires IndexOk(m, docs, added) && (op.AddDoc? ==> op.id !in added)
    ensures IndexOk(ApplyDoc(m, op), StepDocs(docs, op), if op.AddDoc? then added + {op.id} else added)
  {
    var m', docs' := ApplyDoc(m, op), StepDocs(docs, op);
    forall t, x ensures Hit(m', t, x) <==> x in docs' && t in docs'[x] {
      assert Hit(m, t, x) <==> x in docs && t in docs[x];
      match op {
        case AddDoc(id, terms) => AddHits(m, id, terms, added, t, x);
        case DeleteDoc(id) => DeleteHits(m, id, added, t, x);
      }
    }
  }

  lemma AppendHeld(segs: seq<Postings>, p: Postings, live: nat -> bool, t: Term, x: nat)
    ensures HeldLive(segs + [p], live, t, x) <==> HeldLive(segs, live, t, x) || (live(x) && Holds(p, t, x))
  {
    HeldSplit(segs + [p], live, t);
    assert (segs + [p])[..|segs|] == segs;
  }

  lemma FlushKeeps(m: IndexMem, docs: Docs, added: set<nat>)
    requires IndexOk(m, docs, added)
    ensures IndexOk(Flush(m), docs, added)
  {
    if m.buffer != [] {
      var m' := Flush(m);
      BuildHolds(m.buffer);
      forall t, x ensures Hit(m', t, x) <==> Hit(m, t, x) {
        AppendHeld(m.segments, Build(m.buffer), Live(m), t, x);
        assert HeldLive(m'.segments, Live(m'), t, x) <==> HeldLive(m'.segments, Live(m), t, x);
      }
    }
  }

  /** The live postings after a merge are those before it. */
  lemma MergeHeld(m: IndexMem, indices: seq<nat>, t: Term, x: nat)
    requires Within(indices, |m.segments|)
    ensures HeldLive(MergeAt(m, indices).segments, Live(m), t, x) <==> HeldLive(m.segments, Live(m), t, x)
  {
    var live := Live(m);
    var group, out := Pick(m.segments, indices), Outside(|m.segments|, indices);
    KeptInRange(|m.segments|, indices);
    var merged, kept := Merge(group, live), Pick(m.segments, out);
    MergeHolds(group, live);
    AppendHeld(kept, merged, live, t, x);
    if Holds(merged, t, x) { assert x in DocIds(merged); }
    if s :| 0 <= s < |m.segments| && Holds(m.segments[s], t, x) {
      if s in indices {
        var j :| 0 <= j < |indices| && indices[j] == s;
        assert Holds(group[j], t, x);
      } else {
        assert s in out;
        var j :| 0 <= j < |out| && out[j] == s;
        assert Holds(kept[j], t, x);
      }
    }
    if j :| 0 <= j < |kept| && Holds(kept[j], t, x) { assert Holds(m.segments[out[j]], t, x); }
    if j :| 0 <= j < |group| && Holds(group[j], t, x) { assert Holds(m.segments[indices[j]], t, x); }
  }

  lemma MergeWithin(m: IndexMem, indices: seq<nat>, added: set<nat>)
    requires Within(indices, |m.segments|) && SealedWithin(m.segments, added)
    ensures SealedWithin(MergeAt(m, indices).segments, added)
  {
    var group, out := Pick(m.segments, indices), Outside(|m.segments|, indices);
    KeptInRange(|m.segments|, indices);
    var merged, segs := Merge(group, Live(m)), MergeAt(m, indices).segments;
    MergeHolds(group, Live(m));
    forall s, t, x | 0 <= s < |segs| && Holds(segs[s], t, x) ensures x in added {
      if s < |out| {
        assert Holds(m.segments[out[s]], t, x);
      } else {
        assert Holds(merged, t, x) && HeldLive(group, Live(m), t, x);
        var j :| 0 <= j < |group| && Holds(group[j], t, x);
        assert Holds(m.segments[indices[j]], t, x);
      }
    }
  }

  lemma MergeKeeps(m: IndexMem, indices: seq<nat>, docs: Docs, added: set<nat>)
    requires Within(indices, |m.segments|) && IndexOk(m, docs, added)
    ensures IndexOk(MergeAt(m, indices), docs, added)
  {
    var m' := MergeAt(m, indices);
    MergeWithin(m, indices, added);
    forall t, x ensures Hit(m', t, x) <==> Hit(m, t, x) {
      MergeHeld(m, indices, t, x);
      assert HeldLive(m'.segments, Live(m'), t, x) <==> HeldLive(m'.segments, Live(m), t, x);
    }
  }

  lemma KeptCount(m: IndexMem, indices: seq<nat>)
    requires Within(indices, |m.segments|)
    requires forall i, j :: 0 <= i < j < |indices| ==> indices[i] != indices[j]
    ensures Within(Outside(|m.segments|, indices), |m.segments|)
    ensures |Outside(|m.segments|, indices)| + |indices| == |m.segments|
    ensures forall s: nat :: s < |m.segments| && s !in indices ==>
              m.segments[s] in Pick(m.segments, Outside(|m.segments|, indices))
  {
    var out := Outside(|m.segments|, indices);
    KeptInRange(|m.segments|, indices);
    IndicesCount(indices);
    KeptLength(|m.segments|, Indices(indices));
    forall s: nat | s < |m.segments| && s !in indices ensures m.segments[s] in Pick(m.segments, out) {
      assert s in out;
      var j :| 0 <= j < |out| && out[j] == s;
      assert Pick(m.segments, out)[j] == m.segments[s];
    }
  }

  ghost predicate AnyHeld(segs: seq<Postings>, live: nat -> bool) { exists t, x :: HeldLive(segs, live, t, x) }

  lemma DocsOf(p: Postings, segs: seq<Postings>, live: nat -> bool)
    requires forall t, x :: Holds(p, t, x) <==> HeldLive(segs, live, t, x)
    ensures DocIds(p) != {} <==> AnyHeld(segs, live)
  {
    if DocIds(p) != {} {
      var x :| x in DocIds(p);
      var t :| t in p && x in p[t];
      assert Holds(p, t, x) && HeldLive(segs, live, t, x);
    }
    if AnyHeld(segs, live) {
      var t, x :| HeldLive(segs, live, t, x);
      assert Holds(p, t, x) && x in DocIds(p);
    }
  }

  /** A merge removes its group, leaves every other segment, and adds one segment at the
      end, of the live postings of the group, unless there are none. */
  lemma MergeShape(m: IndexMem, indices: seq<nat>)
    requires Within(indices, |m.segments|)
    requires forall i, j :: 0 <= i < j < |indices| ==> indices[i] != indices[j]
    ensures var m', group := MergeAt(m, indices), Pick(m.segments, indices);
            && m' == m.(segments := m'.segments)
            && |m'.segments| + |indices| == |m.segments| + (if AnyHeld(group, Live(m)) then 1 else 0)
            && (forall s: nat :: s < |m.segments| && s !in indices ==> m.segments[s] in m'.segments)
            && (AnyHeld(group, Live(m)) ==> m'.segments != [] && forall t, x ::
                  Holds(m'.segments[|m'.segments| - 1], t, x) <==> HeldLive(group, Live(m), t, x))
  {
    var group := Pick(m.segments, indices);
    MergeHolds(group, Live(m));
    DocsOf(Merge(group, Live(m)), group, Live(m));
    KeptCount(m, indices);
  }

  /** No posting of a tombstoned document is left. */
  ghost predicate NoDead(m: IndexMem) {
    forall s, t, x :: 0 <= s < |m.segments| && Holds(m.segments[s], t, x) ==> x !in m.tombstones
  }

  lemma NoneOutside(n: nat)
    ensures Outside(n, AllIndices(n)) == []
  {
    var all, r := AllIndices(n), Outside(n, AllIndices(n));
    assert r == [] || r[0] in r;
    forall s: nat | s < n ensures s in all { assert all[s] == s; }
  }

  lemma MergeAllNoDead(m: IndexMem)
    ensures NoDead(MergeAt(m, AllIndices(|m.segments|)))
  {
    var n := |m.segments|;
    var all := AllIndices(n);
    MergeHolds(Pick(m.segments, all), Live(m));
    NoneOutside(n);
  }

  lemma CompactKeeps(m: IndexMem, docs: Docs, added: set<nat>)
    requires IndexOk(m, docs, added)
    ensures IndexOk(CompactAll(m), docs, added)
  {
    var m1 := Flush(m);
    var n := |m1.segments|;
    FlushKeeps(m, docs, added);
    var m2 := if n > 1 || (n == 1 && m1.tombstones != {}) then MergeAt(m1, AllIndices(n)) else m1;
    if n > 1 || (n == 1 && m1.tombstones != {}) {
      MergeKeeps(m1, AllIndices(n), docs, added);
      MergeAllNoDead(m1);
    }
    assert NoDead(m2);
    var m3 := CompactAll(m);
    forall t, x ensures Hit(m3, t, x) <==> Hit(m2, t, x) {
      assert m3.buffer == m2.buffer == [];
    }
  }

  /** Sealing empties the buffer into one segment; `compact` leaves at most one segment, no
      tombstone and no buffer. */
  lemma SealAndCompactShape(m: IndexMem)
    ensures Flush(m).buffer == [] && Flush(m).bufferIds <= m.bufferIds
    ensures |Flush(m).segments| == |m.segments| + if m.buffer == [] then 0 else 1
    ensures var c := CompactAll(m); |c.segments| <= 1 && c.tombstones == {} && c.buffer == []
  {
    NoneOutside(|Flush(m).segments|);
  }

  lemma {:induction false} ReplayDocsKeeps(m: IndexMem, log: seq<IndexOp>, threshold: nat, docs: Docs, added: set<nat>)
    requires IndexOk(m, docs, added) && FreshLog(added, log)
    ensures IndexOk(ReplayDocs(m, log, threshold), FoldDocs(docs, log), AddedBy(added, log))
  {
    if log != [] {
      var n := |log| - 1;
      var m0 := ReplayDocs(m, log[..n], threshold);
      ReplayDocsKeeps(m, log[..n], threshold, docs, added);
      ApplyDocKeeps(m0, log[n], FoldDocs(docs, log[..n]), AddedBy(added, log[..n]));
      FlushKeeps(ApplyDoc(m0, log[n]), FoldDocs(docs, log), AddedBy(added, log));
    }
  }

  // ---------------------------------------------------------------------------
  // Runs
  // ---------------------------------------------------------------------------

  /** A write, a sync or a checkpoint may be refused; the effect of a refused append or
      manifest write may take place all the same. */
  datatype IndexEvent =
    | Write(op: IndexOp, fault: Fault)
    | Sync(ok: bool)
    | Seal
    | MergeGroup(indices: seq<nat>)
    | Compact
    | Checkpoint(fault: Fault)
    | Reopen(threshold: nat, kept: nat)

  /** The store and the operations in it; the checkpoint on disk, the operations `early`
      that it covers, and the log since, of which the first `synced` records are safe. */
  datatype IndexWorld = IndexWorld(
    mem: IndexMem,
    ops: seq<IndexOp>,
    saved: IndexMem,
    early: seq<IndexOp>,
    log: seq<IndexOp>,
    synced: nat,
    logDead: bool,
    poisoned: bool)

  const EMPTY_WORLD := IndexWorld(EMPTY_INDEX, [], EMPTY_INDEX, [], [], 0, false, false)

  predicate Writable(w: IndexWorld) { !w.poisoned && !w.logDead }

  function AppendDoc(w: IndexWorld, op: IndexOp, fault: Fault): IndexWorld {
    match fault
    case Success => w.(mem := ApplyDoc(w.mem, op), ops := w.ops + [op], log := w.log + [op])
    case Absent => w.(logDead := true)
    case Present => w.(log := w.log + [op], logDead := true)
  }

  /** Memory becomes the checkpoint on disk, with an empty log. */
  function SavedNow(w: IndexWorld): IndexWorld { w.(saved := w.mem, early := w.ops, log := [], synced := 0) }

  function CheckpointDocs(w: IndexWorld, fault: Fault): IndexWorld {
    match fault
    case Success => SavedNow(w).(logDead := false)
    case Absent => w.(poisoned := true)
    case Present => SavedNow(w).(poisoned := true)
  }

  function NextIndex(w: IndexWorld, e: IndexEvent): IndexWorld {
    match e
    case Write(op, fault) => if Writable(w) then AppendDoc(w, op, fault) else w
    case Sync(ok) => if !Writable(w) then w else if ok then w.(synced := |w.log|) else w.(logDead := true)
    case Seal => w.(mem := Flush(w.mem))
    case MergeGroup(indices) =>
      if forall i :: 0 <= i < |indices| ==> indices[i] < |w.mem.segments| then w.(mem := MergeAt(w.mem, indices)) else w
    case Compact => w.(mem := CompactAll(w.mem))
    case Checkpoint(fault) => if w.poisoned then w else CheckpointDocs(w.(mem := Flush(w.mem)), fault)
    // A crash loses what it likes of the unsynced tail; opening replays the rest.
    case Reopen(threshold, kept) =>
      if w.synced <= kept <= |w.log| then
        w.(mem := ReplayDocs(w.saved, w.log[..kept], threshold), ops := w.early + w.log[..kept], log := w.log[..kept],
           logDead := false, poisoned := false)
      else w
  }

  function IndexAfter(events: seq<IndexEvent>): IndexWorld {
    if events == [] then EMPTY_WORLD
    else NextIndex(IndexAfter(events[..|events| - 1]), events[|events| - 1])
  }

  /** The writes in memory, in order: those that were not refused and that no crash lost,
      and those that a reopen found although they had been refused. */
  function Survivors(events: seq<IndexEvent>): seq<IndexOp> { IndexAfter(events).ops }

  /** Every add uses an id that no surviving add used before. */
  ghost predicate FreshRun(events: seq<IndexEvent>) {
    events == [] ||
    var init, e := events[..|events| - 1], events[|events| - 1];
    FreshRun(init) && (e.Write? && e.op.AddDoc? ==> e.op.id !in AddedBy({}, Survivors(init)))
  }

  ghost predicate Reports(m: IndexMem, ops: seq<IndexOp>) {
    FreshLog({}, ops) && IndexOk(m, FoldDocs(map[], ops), AddedBy({}, ops))
  }

  /** Memory lies between what a crash must keep and what the disk holds. */
  ghost predicate Between(w: IndexWorld) {
    && w.synced <= |w.log|
    && w.early + w.log[..w.synced] <= w.ops <= w.early + w.log
    && (Writable(w) ==> w.ops == w.early + w.log)
  }

  /** The checkpoint reports its operations, and memory its own. */
  ghost predicate WorldOk(w: IndexWorld) {
    Between(w) && FreshLog({}, w.early + w.log) && Reports(w.saved, w.early) && Reports(w.mem, w.ops)
  }

  lemma {:induction false} FoldDocsSplit(docs: Docs, added: set<nat>, a: seq<IndexOp>, b: seq<IndexOp>)
    ensures FoldDocs(docs, a + b) == FoldDocs(FoldDocs(docs, a), b)
    ensures AddedBy(added, a + b) == AddedBy(AddedBy(added, a), b)
    ensures FreshLog(added, a + b) ==> FreshLog(added, a) && FreshLog(AddedBy(added, a), b)
    decreases |b|
  {
    if b == [] {
      assert a + b == a;
    } else {
      var n := |b| - 1;
      FoldDocsSplit(docs, added, a, b[..n]);
      assert (a + b)[..|a + b| - 1] == a + b[..n];
    }
  }

  lemma WriteKeeps(w: IndexWorld, op: IndexOp, fault: Fault)
    requires WorldOk(w) && Writable(w) && (op.AddDoc? ==> op.id !in AddedBy({}, w.ops))
    ensures WorldOk(AppendDoc(w, op, fault))
  {
    assert w.early + (w.log + [op]) == w.ops + [op] && (w.ops + [op])[..|w.ops|] == w.ops;
    assert (w.log + [op])[..w.synced] == w.log[..w.synced];
    ApplyDocKeeps(w.mem, op, FoldDocs(map[], w.ops), AddedBy({}, w.ops));
  }

  /** What opening replays is a part of a log of fresh adds. */
  lemma ReplayReports(saved: IndexMem, early: seq<IndexOp>, log: seq<IndexOp>, kept: nat, threshold: nat)
    requires Reports(saved, early) && FreshLog({}, early + log) && kept <= |log|
    ensures Reports(ReplayDocs(saved, log[..kept], threshold), early + log[..kept])
  {
    var replayed, lost := log[..kept], log[kept..];
    assert early + log == (early + replayed) + lost;
    FoldDocsSplit(map[], {}, early + replayed, lost);
    FoldDocsSplit(map[], {}, early, replayed);
    ReplayDocsKeeps(saved, replayed, threshold, FoldDocs(map[], early), AddedBy({}, early));
  }

  lemma ReopenKeeps(w: IndexWorld, threshold: nat, kept: nat)
    requires WorldOk(w) && w.synced <= kept <= |w.log|
    ensures WorldOk(NextIndex(w, Reopen(threshold, kept)))
  {
    ReplayReports(w.saved, w.early, w.log, kept, threshold);
    assert w.log[..kept][..w.synced] == w.log[..w.synced];
  }

  lemma SaveKeeps(w: IndexWorld, fault: Fault)
    requires WorldOk(w)
    ensures WorldOk(CheckpointDocs(w, fault))
  {
    assert w.ops + [] == w.ops;
  }

  lemma UpkeepKeeps(w: IndexWorld, e: IndexEvent)
    requires WorldOk(w) && !e.Write?
    ensures WorldOk(NextIndex(w, e))
  {
    var docs, added := FoldDocs(map[], w.ops), AddedBy({}, w.ops);
    match e {
      case Sync(_) =>
        assert w.log[..|w.log|] == w.log;
      case Seal =>
        FlushKeeps(w.mem, docs, added);
      case MergeGroup(indices) =>
        if Within(indices, |w.mem.segments|) { MergeKeeps(w.mem, indices, docs, added); }
      case Compact =>
        CompactKeeps(w.mem, docs, added);
      case Checkpoint(fault) =>
        FlushKeeps(w.mem, docs, added);
        SaveKeeps(w.(mem := Flush(w.mem)), fault);
      case Reopen(threshold, kept) =>
        if w.synced <= kept <= |w.log| { ReopenKeeps(w, threshold, kept); }
    }
  }

  lemma {:induction false} RunsAreScans(events: seq<IndexEvent>)
    requires FreshRun(events)
    ensures WorldOk(IndexAfter(events))
  {
    if events != [] {
      var init, e := events[..|events| - 1], events[|events| - 1];
      RunsAreScans(init);
      if !e.Write? {
        UpkeepKeeps(IndexAfter(init), e);
      } else if Writable(IndexAfter(init)) {
        WriteKeeps(IndexAfter(init), e.op, e.fault);
      }
    }
  }

  /** Over every run whose adds use fresh ids, with refused writes and syncs, seals, merges
      of any groups, compactions, checkpoints that succeed, fail or are ambiguous, and
      crashes that lose any unsynced tail before a reopen, a query returns in ascending order,
      each once, exactly the documents that the surviving writes added and did not delete
      and that hold the term. */
  lemma QueryIsScan(events: seq<IndexEvent>, t: Term)
    requires FreshRun(events)
    ensures var r, docs := Hits(IndexAfter(events).mem, t), FoldDocs(map[], Survivors(events));
            Increasing(r) && forall x :: x in r <==> x in docs && t in docs[x]
  {
    RunsAreScans(events);
    var m, docs := IndexAfter(events).mem, FoldDocs(map[], Survivors(events));
    HitsAreHits(m, t);
    forall x ensures x in Hits(m, t) <==> x in docs && t in docs[x] {
      assert Hit(m, t, x) <==> x in docs && t in docs[x];
    }
  }

  lemma OneMore(events: seq<IndexEvent>, e: IndexEvent)
    ensures IndexAfter(events + [e]) == NextIndex(IndexAfter(events), e)
    ensures FreshRun(events) && !e.Write? ==> FreshRun(events + [e])
  {
    assert (events + [e])[..|events|] == events;
  }

  /** An event that writes nothing and loses nothing. */
  ghost predicate Upkeep(w: IndexWorld, e: IndexEvent) {
    !e.Write? && (e.Reopen? ==> |w.early| + e.kept == |w.ops|)
  }

  lemma UpkeepSurvives(w: IndexWorld, e: IndexEvent)
    requires Between(w) && Upkeep(w, e)
    ensures NextIndex(w, e).ops == w.ops
  {
    if e.Reopen? && w.synced <= e.kept <= |w.log| {
      assert (w.early + w.log)[..|w.ops|] == w.early + w.log[..e.kept];
    }
  }

  lemma SameQueries(a: seq<IndexEvent>, b: seq<IndexEvent>, t: Term)
    requires FreshRun(a) && FreshRun(b) && Survivors(a) == Survivors(b)
    ensures Hits(IndexAfter(a).mem, t) == Hits(IndexAfter(b).mem, t)
  {
    QueryIsScan(a, t);
    QueryIsScan(b, t);
    Canonical(Hits(IndexAfter(a).mem, t), Hits(IndexAfter(b).mem, t));
  }

  /** Upkeep, refused or not, and a reopen that finds the writes in memory, never changes a
      query. */
  lemma UpkeepKeepsQueries(events: seq<IndexEvent>, e: IndexEvent, t: Term)
    requires FreshRun(events) && Upkeep(IndexAfter(events), e)
    ensures Hits(IndexAfter(events + [e]).mem, t) == Hits(IndexAfter(events).mem, t)
  {
    OneMore(events, e);
    AlwaysBetween(events);
    UpkeepSurvives(IndexAfter(events), e);
    SameQueries(events + [e], events, t);
  }

  /** The writes that no crash can lose any more. */
  function Safe(w: IndexWorld): seq<IndexOp>
    requires w.synced <= |w.log|
  {
    w.early + w.log[..w.synced]
  }

  lemma BetweenNext(w: IndexWorld, e: IndexEvent)
    requires Between(w)
    ensures var w' := NextIndex(w, e); Between(w') && Safe(w) <= Safe(w')
  {
    var w' := NextIndex(w, e);
    if e.Write? && w'.log != w.log { assert w'.log[..w.synced] == w.log[..w.synced]; }
    if e.Sync? { assert w.log[..|w.log|] == w.log; }
    if e.Reopen? && w.synced <= e.kept <= |w.log| { assert w.log[..e.kept][..w.synced] == w.log[..w.synced]; }
    if e.Checkpoint? { assert w.ops + [] == w.ops; }
  }

  lemma {:induction false} AlwaysBetween(events: seq<IndexEvent>)
    ensures Between(IndexAfter(events))
  {
    if events != [] {
      AlwaysBetween(events[..|events| - 1]);
      BetweenNext(IndexAfter(events[..|events| - 1]), events[|events| - 1]);
    }
  }

  /** What is safe stays, through every continuation. */
  lemma {:induction false} SafeForever(events: seq<IndexEvent>, more: seq<IndexEvent>)
    ensures Between(IndexAfter(events)) && Between(IndexAfter(events + more))
    ensures Safe(IndexAfter(events)) <= Safe(IndexAfter(events + more)) <= Survivors(events + more)
    decreases |more|
  {
    AlwaysBetween(events);
    AlwaysBetween(events + more);
    if more == [] {
      assert events + more == events;
    } else {
      var init, e := more[..|more| - 1], more[|more| - 1];
      SafeForever(events, init);
      assert events + more == (events + init) + [e];
      OneMore(events + init, e);
      BetweenNext(IndexAfter(events + init), e);
    }
  }

  /** After a sync or a checkpoint that succeeds, every write in memory is safe. */
  lemma SyncMakesSafe(events: seq<IndexEvent>, e: IndexEvent)
    requires var w := IndexAfter(events);
             !w.poisoned && (e == Checkpoint(Success) || (e == Sync(true) && !w.logDead))
    ensures Between(IndexAfter(events + [e]))
    ensures Safe(IndexAfter(events + [e])) == Survivors(events + [e]) == Survivors(events)
  {
    OneMore(events, e);
    AlwaysBetween(events);
    AlwaysBetween(events + [e]);
    var w := IndexAfter(events);
    assert w.log[..|w.log|] == w.log && w.ops + [] == w.ops;
  }

  /** A sealed segment lists document `id` under term `t`. */
  ghost predicate SealedUnder(m: IndexMem, t: Term, id: nat) {
    exists s :: 0 <= s < |m.segments| && Holds(m.segments[s], t, id)
  }

  lemma AnyAddHits(m: IndexMem, id: nat, terms: seq<Term>, t: Term, x: nat)
    requires forall d :: d in m.buffer ==> d.0 in m.bufferIds
    ensures var m' := ApplyDoc(m, AddDoc(id, terms));
            Hit(m', t, x) <==> if x == id then t in terms || SealedUnder(m, t, id) else Hit(m, t, x)
  {
    var m' := ApplyDoc(m, AddDoc(id, terms));
    var rest := if id in m.bufferIds then DropDoc(m.buffer, id) else m.buffer;
    assert m'.buffer == rest + [(id, terms)];
    DocSplit(rest, (id, terms));
    if x != id && HasTerm(m.buffer, t, x) {
      var d :| d in m.buffer && d.0 == x && t in d.1;
      assert d in rest;
    }
  }

  /** For any add, fresh or not: the store still reports exactly the documents if and
      only if every term under which a sealed segment lists the id is a term of the new
      version. */
  lemma AddScansIff(m: IndexMem, docs: Docs, id: nat, terms: seq<Term>)
    requires Scans(m, docs) && forall d :: d in m.buffer ==> d.0 in m.bufferIds
    ensures Scans(ApplyDoc(m, AddDoc(id, terms)), StepDocs(docs, AddDoc(id, terms)))
            <==> forall t :: SealedUnder(m, t, id) ==> t in terms
  {
    var m', docs' := ApplyDoc(m, AddDoc(id, terms)), StepDocs(docs, AddDoc(id, terms));
    forall t, x
      ensures Hit(m', t, x) <==> if x == id then t in terms || SealedUnder(m, t, id) else x in docs && t in docs[x]
    {
      AnyAddHits(m, id, terms, t, x);
      assert Hit(m, t, x) <==> x in docs && t in docs[x];
    }
    if Scans(m', docs') {
      forall t | SealedUnder(m, t, id) ensures t in terms { assert Hit(m', t, id); }
    }
  }

  function ReaddRun(a: Term, b: Term): seq<IndexEvent> {
    [Write(AddDoc(0, [a]), Success)] + [Seal] + [Write(AddDoc(0, [b]), Success)]
  }

  lemma ReaddWorld(a: Term, b: Term)
    ensures Survivors(ReaddRun(a, b)) == [AddDoc(0, [a])] + [AddDoc(0, [b])]
    ensures IndexAfter(ReaddRun(a, b)).mem == ApplyDoc(Flush(IndexMem([(0, [a])], [], {}, {0})), AddDoc(0, [b]))
  {
    var op0, op2 := AddDoc(0, [a]), AddDoc(0, [b]);
    OneMore([], Write(op0, Success));
    assert [] + [Write(op0, Success)] == [Write(op0, Success)];
    assert ApplyDoc(EMPTY_INDEX, op0) == IndexMem([(0, [a])], [], {}, {0});
    OneMore([Write(op0, Success)], Seal);
    OneMore([Write(op0, Success)] + [Seal], Write(op2, Success));
    assert IndexAfter([Write(op0, Success)]).ops == [op0];
  }

  /** Without fresh ids this fails: a sealed document stays under its old terms after it
      is added again. */
  lemma ReaddKeepsOldTerms(a: Term, b: Term)
    requires a != b
    ensures FoldDocs(map[], Survivors(ReaddRun(a, b))) == map[0 := [b]]
    ensures 0 in Hits(IndexAfter(ReaddRun(a, b)).mem, a)
  {
    ReaddWorld(a, b);
    ReaddDocs(Survivors(ReaddRun(a, b)), a, b);
    ReaddHit(IndexAfter(ReaddRun(a, b)).mem, a, b);
  }

  lemma ReaddDocs(ops: seq<IndexOp>, a: Term, b: Term)
    requires ops == [AddDoc(0, [a])] + [AddDoc(0, [b])]
    ensures FoldDocs(map[], ops) == map[0 := [b]]
  {
    FoldDocsSplit(map[], {}, [AddDoc(0, [a])], [AddDoc(0, [b])]);
    FoldOne(map[], AddDoc(0, [a]));
    FoldOne(map[0 := [a]], AddDoc(0, [b]));
  }

  lemma ReaddHit(m: IndexMem, a: Term, b: Term)
    requires m == ApplyDoc(Flush(IndexMem([(0, [a])], [], {}, {0})), AddDoc(0, [b]))
    ensures 0 in Hits(m, a)
  {
    var m0 := IndexMem([(0, [a])], [], {}, {0});
    assert m0.buffer[0] in m0.buffer && HasTerm(m0.buffer, a, 0);
    SealedStays(m0, a, AddDoc(0, [b]));
  }

  lemma FoldOne(docs: Docs, op: IndexOp)
    ensures FoldDocs(docs, [op]) == StepDocs(docs, op)
  {
    assert [op][..0] == [];
  }

  lemma SealedStays(m: IndexMem, t: Term, op: IndexOp)
    requires HasTerm(m.buffer, t, op.id) && op.AddDoc?
    ensures op.id in Hits(ApplyDoc(Flush(m), op), t)
  {
    var m' := ApplyDoc(Flush(m), op);
    BuildHolds(m.buffer);
    AppendHeld(m.segments, Build(m.buffer), Live(m'), t, op.id);
    HitsAreHits(m', t);
  }
}
