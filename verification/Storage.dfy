/** The directory of one store, as an object whose files change in place and whose
    actions may fail, together with the run of the protocol it has been through. */
module Storage {
  import opened Base
  import opened Disk
  import opened Protocol
  import opened Safety
  import opened SortedIds
  import opened Theorems

  ghost function Refusals(fault: Fault): nat { if fault.Success? then 0 else 1 }

  class Directory {
    var manifest: Option<Manifest>
    var segs: map<nat, Segment>
    var logs: map<nat, Log>
    var platter: map<nat, Segment>

    /** Files that recovery never reads: index sidecars, by segment id and kind, and the
        temporary files of atomic segment writes. */
    var sidecars: set<(nat, string)>
    var temps: set<nat>

    /** The events so far, the worlds they led through, and the last of these. */
    ghost var events: seq<Event>
    ghost var trace: seq<World>
    ghost var world: World

    /** How many disk actions were refused so far. */
    ghost var faults: nat

    /** How many best-effort actions, listings and removals, did not happen so far. */
    ghost var skips: nat

    function Contents(): Disk
      reads this
    {
      Disk(manifest, segs, logs, platter)
    }

    /** The bookkeeping is that of a legal run. */
    ghost predicate Tracked()
      reads this
    {
      IsTrace(trace, events) && world == trace[|events|]
    }

    ghost predicate Valid()
      reads this
    {
      Tracked() && world.disk == Contents()
    }

    constructor ()
      ensures Valid() && Contents() == EMPTY_DISK && world == START
    {
      manifest := None;
      segs := map[];
      logs := map[];
      platter := map[];
      sidecars, temps := {}, {};
      events, trace, world, faults, skips := [], [START], START, 0, 0;
    }

    /** Extend the run by one enabled event. */
    ghost method Advance(e: Event)
      requires Tracked() && Enabled(world, e)
      modifies this`events, this`trace, this`world
      ensures Tracked() && events == old(events) + [e] && world == Next(old(world), e)
    {
      TraceNext(trace, events, e);
      trace := trace + [Next(world, e)];
      events := events + [e];
      world := trace[|events|];
    }

    /** Extend the run by a manifest write, which saves memory if it succeeds. */
    ghost method AdvanceCommit(fault: Fault)
      requires Tracked() && Enabled(world, Commit(Success))
      modifies this`events, this`trace, this`world
      ensures Tracked() && events == old(events) + [Commit(fault)] && world.hist == old(world.hist)
      ensures world.disk == if fault.Absent? then old(world.disk)
                            else Committed(old(world.disk), old(world.writer).value)
      ensures fault.Success? ==> Fresh(world, old(world.writer).value)
      ensures var wr := old(world.writer).value;
              world.writer == Some(if fault.Success? then wr.(epoch := wr.epoch + 1, logDead := false, stale := true)
                                   else wr.(poisoned := true))
    {
      Invariant();
      CommitIsFresh(world);
      Advance(Commit(fault));
    }

    /** So the events are a legal run, and the invariant of the protocol holds. */
    lemma Invariant()
      requires Tracked()
      ensures Legal(events) && world == RunOf(events) && WorldInv(world)
    {
      TraceIsRun(trace, events);
      Reachable(events);
    }

    // Each action below succeeds, or is refused with its effect absent or, unknown to
    // the caller, present. Refusals are counted.

    method PutSegment(id: nat, seg: Segment) returns (fault: Fault)
      modifies this`segs, this`platter, this`faults
      ensures segs == if fault.Absent? then old(segs) else old(segs)[id := seg]
      ensures platter == if fault.Absent? then old(platter) else old(platter)[id := seg]
      ensures faults == old(faults) + Refusals(fault)
    {
      fault := *;
      faults := faults + Refusals(fault);
      if !fault.Absent? { segs, platter := segs[id := seg], platter[id := seg]; }
    }

    // Reading a file, an absent one included, is refused or shows what is there.

    method ReadManifest() returns (r: Option<Option<Manifest>>)
      modifies this`faults
      ensures if faults == old(faults) then r == Some(manifest) else r.None? && faults == old(faults) + 1
    {
      if * { return Some(manifest); }
      faults := faults + 1;
      return None;
    }

    /** What a catalog opened here says of a segment id, by binary search in its manifest. */
    method CatalogNames(id: nat) returns (r: Option<bool>)
      requires Valid()
      modifies this`faults
      ensures if faults == old(faults) then r == Some(id in NamedIds(Contents()))
              else r.None? && faults == old(faults) + 1
    {
      var found := ReadManifest();
      if found.None? { return None; }
      if found.value.None? { return Some(false); }
      assert Increasing(manifest.value.segmentIds) by {
        Invariant();
        ManifestAscends(events);
      }
      var named := BinarySearch(found.value.value.segmentIds, id);
      return Some(named);
    }

    /** A segment file that does not exist reads as `Some(None)`. */
    method ReadSegment(id: nat) returns (r: Option<Option<Segment>>)
      modifies this`faults
      ensures if faults == old(faults) then r == Some(if id in segs then Some(segs[id]) else None)
              else r.None? && faults == old(faults) + 1
    {
      if * { return Some(if id in segs then Some(segs[id]) else None); }
      faults := faults + 1;
      return None;
    }

    method ReadLog(epoch: nat) returns (r: Option<seq<Op>>)
      modifies this`faults
      ensures if faults == old(faults) then r == Some(if epoch in logs then logs[epoch].recs else [])
              else r.None? && faults == old(faults) + 1
    {
      if * { return Some(if epoch in logs then logs[epoch].recs else []); }
      faults := faults + 1;
      return None;
    }

    method PutManifest(m: Manifest) returns (fault: Fault)
      modifies this`manifest, this`faults
      ensures manifest == if fault.Absent? then old(manifest) else Some(m)
      ensures faults == old(faults) + Refusals(fault)
    {
      fault := *;
      faults := faults + Refusals(fault);
      if !fault.Absent? { manifest := Some(m); }
    }

    method AppendRecord(epoch: nat, op: Op) returns (fault: Fault)
      modifies this`logs, this`faults
      ensures faults == old(faults) + Refusals(fault)
      ensures var log := if epoch in old(logs) then old(logs)[epoch] else Log([], 0);
              logs == if fault.Absent? then old(logs) else old(logs)[epoch := Log(log.recs + [op], log.synced)]
    {
      fault := *;
      faults := faults + Refusals(fault);
      if !fault.Absent? {
        var log := if epoch in logs then logs[epoch] else Log([], 0);
        logs := logs[epoch := Log(log.recs + [op], log.synced)];
      }
    }

    method SyncLog(epoch: nat) returns (ok: bool)
      modifies this`logs, this`faults
      ensures faults == if ok then old(faults) else old(faults) + 1
      ensures var log := if epoch in old(logs) then old(logs)[epoch] else Log([], 0);
              logs == if ok then old(logs)[epoch := Log(log.recs, |log.recs|)] else old(logs)
    {
      ok := *;
      if !ok { faults := faults + 1; }
      if ok {
        var log := if epoch in logs then logs[epoch] else Log([], 0);
        logs := logs[epoch := Log(log.recs, |log.recs|)];
      }
    }

    /** Best-effort removal of a segment file. */
    method RemoveSegmentFile(id: nat) returns (ok: bool)
      modifies this`segs, this`skips
      ensures segs == if ok then old(segs) - {id} else old(segs)
      ensures skips == if ok then old(skips) else old(skips) + 1
    {
      ok := *;
      if ok { segs := segs - {id}; } else { skips := skips + 1; }
    }

    method RemoveLogFile(epoch: nat) returns (ok: bool)
      modifies this`logs, this`skips
      ensures logs == if ok then old(logs) - {epoch} else old(logs)
      ensures skips == if ok then old(skips) else old(skips) + 1
    {
      ok := *;
      if ok { logs := logs - {epoch}; } else { skips := skips + 1; }
    }

    /** The segment files a listing shows; a failed listing shows none. */
    method ListSegments() returns (ids: set<nat>)
      modifies this`skips
      ensures (ids == segs.Keys && skips == old(skips)) || (ids == {} && skips == old(skips) + 1)
    {
      if * { ids := segs.Keys; } else { ids, skips := {}, skips + 1; }
    }

    method ListLogs() returns (epochs: set<nat>)
      modifies this`skips
      ensures (epochs == logs.Keys && skips == old(skips)) || (epochs == {} && skips == old(skips) + 1)
    {
      if * { epochs := logs.Keys; } else { epochs, skips := {}, skips + 1; }
    }

    method RemoveSidecar(name: (nat, string)) returns (ok: bool)
      modifies this`sidecars, this`skips
      ensures sidecars == if ok then old(sidecars) - {name} else old(sidecars)
      ensures skips == if ok then old(skips) else old(skips) + 1
    {
      ok := *;
      if ok { sidecars := sidecars - {name}; } else { skips := skips + 1; }
    }

    method RemoveTemp(id: nat) returns (ok: bool)
      modifies this`temps, this`skips
      ensures temps == if ok then old(temps) - {id} else old(temps)
      ensures skips == if ok then old(skips) else old(skips) + 1
    {
      ok := *;
      if ok { temps := temps - {id}; } else { skips := skips + 1; }
    }

    method ListSidecars() returns (names: set<(nat, string)>)
      modifies this`skips
      ensures (names == sidecars && skips == old(skips)) || (names == {} && skips == old(skips) + 1)
    {
      if * { names := sidecars; } else { names, skips := {}, skips + 1; }
    }

    method ListTemps() returns (ids: set<nat>)
      modifies this`skips
      ensures (ids == temps && skips == old(skips)) || (ids == {} && skips == old(skips) + 1)
    {
      if * { ids := temps; } else { ids, skips := {}, skips + 1; }
    }

    /** What a crash may do to the directory, in terms of the run: it keeps a part of the
        log that contains the synced records, and issues nothing. */
    twostate predicate Crashed()
      reads this
    {
      && Valid() && world.writer.None? && old(events) <= events && faults == old(faults)
      && world.hist == old(world.hist) && world.done == old(world.done)
      && world.disk.manifest == old(world.disk.manifest)
      && world.logAt <= old(world.logAt) && CurLog(world.disk).recs <= CurLog(old(world.disk)).recs
      && |CurLog(world.disk).recs| >= CurLog(old(world.disk)).synced
    }

    /** Nothing the manifest or the current log says changes when removed files return. */
    twostate predicate Revived()
      reads this
    {
      && Valid() && world.writer.None? && old(events) <= events
      && world.hist == old(world.hist) && world.done == old(world.done) && world.logAt == old(world.logAt)
      && world.disk.manifest == old(world.disk.manifest) && CurLog(world.disk) == CurLog(old(world.disk))
    }

    /** The process dies: any part of the log past the synced records may be lost, and any
        removal may turn out not to have been durable. */
    method Fail()
      requires Valid()
      modifies this
      ensures Crashed()
    {
      Die();
      ReviveSegments();
      ReviveLogs();
      temps, sidecars := *, *;
    }

    method Die()
      requires Valid()
      modifies this
      ensures Crashed()
    {
      var epoch := if manifest.Some? then manifest.value.epoch else 0;
      var log := if epoch in logs then logs[epoch] else Log([], 0);
      Invariant();
      assert log == CurLog(world.disk) && log.synced <= |log.recs|;
      var kept: nat := *;
      if !(log.synced <= kept <= |log.recs|) { kept := |log.recs|; }
      if epoch in logs { logs := logs[epoch := Log(log.recs[..kept], log.synced)]; }
      Advance(Crash(kept));
    }

    method ReviveSegments()
      requires Valid() && world.writer.None?
      modifies this`segs, this`events, this`trace, this`world
      ensures Revived()
    {
      var back: set<nat> := *;
      back := back * platter.Keys - segs.Keys;
      while back != {}
        invariant Revived() && back <= platter.Keys - segs.Keys
        decreases |back|
      {
        var k :| k in back;
        back := back - {k};
        ReviveOne(k);
      }
    }

    method ReviveOne(k: nat)
      requires Valid() && world.writer.None? && k in platter.Keys - segs.Keys
      modifies this`segs, this`events, this`trace, this`world
      ensures Revived() && segs == old(segs)[k := platter[k]]
    {
      segs := segs[k := platter[k]];
      AdvanceRevive(ReviveSegment(k));
    }

    method ReviveLogs()
      requires Valid() && world.writer.None?
      modifies this`logs, this`events, this`trace, this`world
      ensures Revived()
    {
      var epoch := if manifest.Some? then manifest.value.epoch else 0;
      var back: map<nat, Log> := *;
      var rest := back.Keys;
      while rest != {}
        invariant Revived() && rest <= back.Keys
        decreases |rest|
      {
        var k :| k in rest;
        rest := rest - {k};
        if k < epoch {
          logs := logs[k := back[k]];
          AdvanceRevive(ReviveLog(k, back[k]));
        }
      }
    }

    /** Extend the run by the return of a removed file. */
    ghost method AdvanceRevive(e: Event)
      requires Tracked() && Enabled(world, e) && (e.ReviveSegment? || e.ReviveLog?)
      modifies this`events, this`trace, this`world
      ensures Tracked() && events == old(events) + [e] && world == Next(old(world), e)
      ensures world.hist == old(world.hist) && world.done == old(world.done) && world.logAt == old(world.logAt)
      ensures world.writer == old(world.writer) && world.disk.manifest == old(world.disk.manifest)
      ensures CurLog(world.disk) == CurLog(old(world.disk))
    {
      Invariant();
      ReviveKeeps(world, e);
      Advance(e);
    }
  }
}
