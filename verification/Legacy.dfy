/** Opening any manifest, also one written before superseded copies were tracked: what the
    scan of `open` finds, when it refuses, and exactly when the opened store is consistent. */
module Legacy {
  import opened Base
  import opened Memory
  import opened Refinement
  import opened Recovery

  ghost predicate Claimed(t: Tables, k: nat, x: Id) { x in t.owners && t.owners[x] == k }

  /** Among the first `s` segments and the first `p` entries of the next one there is a
      copy of `x` in segment `k`. */
  ghost predicate Passed(ids: seq<nat>, segs: seq<Segment>, s: nat, p: nat, k: nat, x: Id)
    requires |ids| == |segs|
  {
    || (exists j: nat :: j < s && j < |ids| && ids[j] == k && x in IdsOf(segs[j]))
    || (s < |ids| && p <= |segs[s]| && ids[s] == k && x in IdsOf(segs[s][..p]))
  }

  /** What is scanned: the tombstones and superseded sets of the manifest, and the loaded
      segments. */
  datatype Scan = Scan(tombstones: set<Id>, superseded: map<nat, set<Id>>, ids: seq<nat>, segs: seq<Segment>)

  ghost predicate WellFormed(c: Scan) {
    |c.ids| == |c.segs| && forall i, j :: 0 <= i < j < |c.ids| ==> c.ids[i] != c.ids[j]
  }

  /** In the passed segments exactly the claimed copies are live; the current one is
      claimed by its own live copies; nothing else is touched. */
  ghost predicate ClaimsOk(t: Tables, c: Scan, s: nat, p: nat)
    requires WellFormed(c)
  {
    && (forall j: nat, x :: j < s && j < |c.ids| && x in IdsOf(c.segs[j]) ==>
          (CopyIsLive(c.tombstones, t.superseded, c.ids[j], x) <==> Claimed(t, c.ids[j], x)))
    && (s < |c.ids| && p <= |c.segs[s]| ==> forall x :: x in IdsOf(c.segs[s][..p]) ==>
          (CopyIsLive(c.tombstones, c.superseded, c.ids[s], x) <==> Claimed(t, c.ids[s], x)))
    && (forall x :: x in t.owners ==> Passed(c.ids, c.segs, s, p, t.owners[x], x) && x !in c.tombstones)
  }

  ghost predicate MarksOk(t: Tables, c: Scan, s: nat, p: nat)
    requires WellFormed(c)
  {
    && (forall j: nat :: s <= j < |c.ids| ==> Dead(t.superseded, c.ids[j]) == Dead(c.superseded, c.ids[j]))
    && (forall k, x :: x in Dead(c.superseded, k) ==> x in Dead(t.superseded, k))
    && (forall k, x :: x in Dead(t.superseded, k) && x !in Dead(c.superseded, k) ==>
          x !in c.tombstones && Passed(c.ids, c.segs, s, p, k, x))
    && (forall k :: k in t.superseded ==> k in c.superseded || k in c.ids)
  }

  ghost predicate ScanAt(t: Tables, c: Scan, s: nat, p: nat)
    requires WellFormed(c)
  {
    ClaimsOk(t, c, s, p) && MarksOk(t, c, s, p) && NewestOk(t, c, s, p)
  }

  /** `x` is owned by the segment at position `i` or at a later one. */
  ghost predicate OwnedFrom(t: Tables, c: Scan, i: nat, x: Id)
    requires WellFormed(c)
  {
    x in t.owners && exists q: nat :: i <= q < |c.ids| && c.ids[q] == t.owners[x]
  }

  /** A passed copy that the manifest leaves live is owned there or in a newer segment. */
  ghost predicate NewestOk(t: Tables, c: Scan, s: nat, p: nat)
    requires WellFormed(c)
  {
    && (forall i: nat, x :: i < s && i < |c.ids| && x in IdsOf(c.segs[i]) ==>
          CopyIsLive(c.tombstones, c.superseded, c.ids[i], x) ==> OwnedFrom(t, c, i, x))
    && (s < |c.ids| && p <= |c.segs[s]| ==> forall x :: x in IdsOf(c.segs[s][..p]) ==>
          CopyIsLive(c.tombstones, c.superseded, c.ids[s], x) ==> OwnedFrom(t, c, s, x))
  }

  /** Entry `j` of segment `s` repeats a live id of an earlier entry. */
  ghost predicate Repeats(c: Scan, s: nat, j: nat)
    requires WellFormed(c)
  {
    && s < |c.ids| && j < |c.segs[s]|
    && c.segs[s][j].0 in IdsOf(c.segs[s][..j])
    && CopyIsLive(c.tombstones, c.superseded, c.ids[s], c.segs[s][j].0)
  }

  lemma PassedMore(c: Scan, s: nat, p: nat, k: nat, x: Id)
    requires WellFormed(c) && s < |c.ids| && p < |c.segs[s]|
    ensures Passed(c.ids, c.segs, s, p + 1, k, x) <==>
            Passed(c.ids, c.segs, s, p, k, x) || (k == c.ids[s] && x == c.segs[s][p].0)
  {
    var es := c.segs[s];
    assert es[..p + 1] == es[..p] + [es[p]];
    assert IdsOf(es[..p + 1]) == IdsOf(es[..p]) + {es[p].0};
  }

  /** An owner passed before the current segment is an older segment. */
  lemma OlderOwner(t: Tables, c: Scan, s: nat, p: nat, x: Id)
    requires WellFormed(c) && s < |c.ids| && p <= |c.segs[s]| && ClaimsOk(t, c, s, p) && x in t.owners
    ensures t.owners[x] == c.ids[s] ==> x in IdsOf(c.segs[s][..p])
    ensures t.owners[x] != c.ids[s] ==> exists j: nat :: j < s && c.ids[j] == t.owners[x] && x in IdsOf(c.segs[j])
  {
    assert Passed(c.ids, c.segs, s, p, t.owners[x], x);
  }

  lemma CopyClaimsOlder(t: Tables, c: Scan, s: nat, p: nat, j: nat, y: Id)
    requires WellFormed(c) && s < |c.ids| && p < |c.segs[s]| && ScanAt(t, c, s, p)
    requires ClaimCopy(t, c.tombstones, c.ids[s], c.segs[s][p].0).Some?
    requires j < s && y in IdsOf(c.segs[j])
    ensures var t' := ClaimCopy(t, c.tombstones, c.ids[s], c.segs[s][p].0).value;
            CopyIsLive(c.tombstones, t'.superseded, c.ids[j], y) <==> Claimed(t', c.ids[j], y)
  {
    assert CopyIsLive(c.tombstones, t.superseded, c.ids[j], y) <==> Claimed(t, c.ids[j], y);
    assert c.ids[j] != c.ids[s];
  }

  /** After its claim the current segment's own copies are still the live ones. */
  lemma CopyClaimsHere(t: Tables, c: Scan, s: nat, p: nat, y: Id)
    requires WellFormed(c) && s < |c.ids| && p < |c.segs[s]| && ScanAt(t, c, s, p)
    requires ClaimCopy(t, c.tombstones, c.ids[s], c.segs[s][p].0).Some?
    requires y in IdsOf(c.segs[s][..p]) || y == c.segs[s][p].0
    ensures var t' := ClaimCopy(t, c.tombstones, c.ids[s], c.segs[s][p].0).value;
            CopyIsLive(c.tombstones, c.superseded, c.ids[s], y) <==> Claimed(t', c.ids[s], y)
  {
    assert Dead(t.superseded, c.ids[s]) == Dead(c.superseded, c.ids[s]);
    if y in t.owners { OlderOwner(t, c, s, p, y); }
  }

  lemma CopyClaims(t: Tables, c: Scan, s: nat, p: nat)
    requires WellFormed(c) && s < |c.ids| && p < |c.segs[s]| && ScanAt(t, c, s, p)
    requires ClaimCopy(t, c.tombstones, c.ids[s], c.segs[s][p].0).Some?
    ensures ClaimsOk(ClaimCopy(t, c.tombstones, c.ids[s], c.segs[s][p].0).value, c, s, p + 1)
  {
    var es := c.segs[s];
    var t' := ClaimCopy(t, c.tombstones, c.ids[s], es[p].0).value;
    forall y | y in IdsOf(es[..p + 1])
      ensures CopyIsLive(c.tombstones, c.superseded, c.ids[s], y) <==> Claimed(t', c.ids[s], y)
    {
      assert es[..p + 1] == es[..p] + [es[p]];
      CopyClaimsHere(t, c, s, p, y);
    }
    forall j: nat, y | j < s && y in IdsOf(c.segs[j])
      ensures CopyIsLive(c.tombstones, t'.superseded, c.ids[j], y) <==> Claimed(t', c.ids[j], y)
    {
      CopyClaimsOlder(t, c, s, p, j, y);
    }
    forall y | y in t'.owners ensures Passed(c.ids, c.segs, s, p + 1, t'.owners[y], y) && y !in c.tombstones {
      PassedMore(c, s, p, t'.owners[y], y);
    }
  }

  lemma CopyMarks(t: Tables, c: Scan, s: nat, p: nat)
    requires WellFormed(c) && s < |c.ids| && p < |c.segs[s]| && ScanAt(t, c, s, p)
    requires ClaimCopy(t, c.tombstones, c.ids[s], c.segs[s][p].0).Some?
    ensures MarksOk(ClaimCopy(t, c.tombstones, c.ids[s], c.segs[s][p].0).value, c, s, p + 1)
  {
    var x, k := c.segs[s][p].0, c.ids[s];
    var t' := ClaimCopy(t, c.tombstones, k, x).value;
    if x in t.owners { OlderOwner(t, c, s, p, x); }
    forall q, y | y in Dead(t'.superseded, q) && y !in Dead(c.superseded, q)
      ensures y !in c.tombstones && Passed(c.ids, c.segs, s, p + 1, q, y)
    {
      PassedMore(c, s, p, q, y);
      if y !in Dead(t.superseded, q) { assert y == x && q == t.owners[x]; }
    }
  }

  lemma CopyNewest(t: Tables, c: Scan, s: nat, p: nat)
    requires WellFormed(c) && s < |c.ids| && p < |c.segs[s]| && ScanAt(t, c, s, p)
    requires ClaimCopy(t, c.tombstones, c.ids[s], c.segs[s][p].0).Some?
    ensures NewestOk(ClaimCopy(t, c.tombstones, c.ids[s], c.segs[s][p].0).value, c, s, p + 1)
  {
    var es := c.segs[s];
    var x := es[p].0;
    var t' := ClaimCopy(t, c.tombstones, c.ids[s], x).value;
    assert Dead(t.superseded, c.ids[s]) == Dead(c.superseded, c.ids[s]);
    assert es[..p + 1] == es[..p] + [es[p]];
    forall i: nat, y | i <= s && OwnedFrom(t, c, i, y) ensures OwnedFrom(t', c, i, y) {
      if y == x && t'.owners[x] != t.owners[x] { assert c.ids[s] == t'.owners[x]; }
    }
    if CopyIsLive(c.tombstones, c.superseded, c.ids[s], x) { assert OwnedFrom(t', c, s, x); }
  }

  /** One entry: refused exactly when it repeats a live id of its segment. */
  lemma CopyRefused(t: Tables, c: Scan, s: nat, p: nat)
    requires WellFormed(c) && s < |c.ids| && p < |c.segs[s]| && ScanAt(t, c, s, p)
    ensures ClaimCopy(t, c.tombstones, c.ids[s], c.segs[s][p].0).None? <==> Repeats(c, s, p)
  {
    var x, k := c.segs[s][p].0, c.ids[s];
    if x in t.owners { OlderOwner(t, c, s, p, x); }
    assert Dead(t.superseded, k) == Dead(c.superseded, k);
  }

  lemma PassedWhole(c: Scan, s: nat, k: nat, x: Id)
    requires WellFormed(c) && s < |c.ids|
    ensures Passed(c.ids, c.segs, s, |c.segs[s]|, k, x) <==> Passed(c.ids, c.segs, s + 1, 0, k, x)
  {
    var es := c.segs[s];
    assert es[..|es|] == es;
    if c.ids[s] == k && x in IdsOf(es) { assert Passed(c.ids, c.segs, s + 1, 0, k, x); }
  }

  /** Segment `s` is done: its claims become permanent. */
  lemma NextSegment(t: Tables, c: Scan, s: nat)
    requires WellFormed(c) && s < |c.ids| && ScanAt(t, c, s, |c.segs[s]|)
    ensures ScanAt(t, c, s + 1, 0)
  {
    NextClaims(t, c, s);
    NextMarks(t, c, s);
    assert c.segs[s][..|c.segs[s]|] == c.segs[s];
  }

  lemma NextClaims(t: Tables, c: Scan, s: nat)
    requires WellFormed(c) && s < |c.ids| && ScanAt(t, c, s, |c.segs[s]|)
    ensures ClaimsOk(t, c, s + 1, 0)
  {
    assert c.segs[s][..|c.segs[s]|] == c.segs[s];
    assert Dead(t.superseded, c.ids[s]) == Dead(c.superseded, c.ids[s]);
    forall x | x in t.owners ensures Passed(c.ids, c.segs, s + 1, 0, t.owners[x], x) {
      PassedWhole(c, s, t.owners[x], x);
    }
  }

  lemma NextMarks(t: Tables, c: Scan, s: nat)
    requires WellFormed(c) && s < |c.ids| && MarksOk(t, c, s, |c.segs[s]|)
    ensures MarksOk(t, c, s + 1, 0)
  {
    forall k, x | x in Dead(t.superseded, k) && x !in Dead(c.superseded, k)
      ensures Passed(c.ids, c.segs, s + 1, 0, k, x)
    {
      PassedWhole(c, s, k, x);
    }
  }

  lemma {:induction false} ScanSegment(t: Tables, c: Scan, s: nat, p: nat)
    requires WellFormed(c) && s < |c.ids| && p <= |c.segs[s]| && ScanAt(t, c, s, p)
    ensures var r := ClaimSegment(t, c.tombstones, c.ids[s], c.segs[s][p..]);
            && (r.Some? ==> ScanAt(r.value, c, s + 1, 0))
            && (r.None? <==> exists j: nat :: p <= j && Repeats(c, s, j))
    decreases |c.segs[s]| - p
  {
    var es := c.segs[s];
    if p == |es| {
      NextSegment(t, c, s);
    } else {
      assert es[p..][0] == es[p] && es[p..][1..] == es[p + 1..];
      CopyRefused(t, c, s, p);
      var t' := ClaimCopy(t, c.tombstones, c.ids[s], es[p].0);
      if t'.Some? {
        CopyClaims(t, c, s, p);
        CopyMarks(t, c, s, p);
        CopyNewest(t, c, s, p);
        ScanSegment(t'.value, c, s, p + 1);
      }
    }
  }

  lemma {:induction false} ScanAll(t: Tables, c: Scan, s: nat)
    requires WellFormed(c) && s <= |c.ids| && ScanAt(t, c, s, 0)
    ensures var r := ClaimAll(t, c.tombstones, c.ids[s..], c.segs[s..]);
            && (r.Some? ==> ScanAt(r.value, c, |c.ids|, 0))
            && (r.None? <==> exists i: nat, j: nat :: s <= i && Repeats(c, i, j))
    decreases |c.ids| - s
  {
    if s < |c.ids| {
      assert c.ids[s..][1..] == c.ids[s + 1..] && c.segs[s..][1..] == c.segs[s + 1..];
      assert c.segs[s][0..] == c.segs[s];
      ScanSegment(t, c, s, 0);
      var t' := ClaimSegment(t, c.tombstones, c.ids[s], c.segs[s]);
      if t'.Some? { ScanAll(t'.value, c, s + 1); }
    }
  }

  /** The scan refuses a manifest exactly when one segment holds two live copies of an
      id; otherwise, whatever duplicates there are across segments, a copy is live
      afterwards exactly when its segment owns the id. */
  lemma ScanResult(c: Scan)
    requires WellFormed(c)
    ensures var r := ClaimAll(Tables(map[], c.superseded), c.tombstones, c.ids, c.segs);
            && (r.None? <==> exists i: nat, j: nat :: Repeats(c, i, j))
            && (r.Some? ==> ScanAt(r.value, c, |c.ids|, 0))
  {
    assert c.ids[0..] == c.ids && c.segs[0..] == c.segs;
    ScanAll(Tables(map[], c.superseded), c, 0);
  }

  /** Of several copies that the manifest leaves live, the newest segment's stays live and
      the others are marked. */
  lemma NewestWins(c: Scan, s: nat, x: Id)
    requires WellFormed(c) && s < |c.ids| && x in IdsOf(c.segs[s])
    requires CopyIsLive(c.tombstones, c.superseded, c.ids[s], x)
    requires forall j: nat :: s < j < |c.ids| && x in IdsOf(c.segs[j]) ==>
                                !CopyIsLive(c.tombstones, c.superseded, c.ids[j], x)
    ensures var r := ClaimAll(Tables(map[], c.superseded), c.tombstones, c.ids, c.segs);
            r.Some? ==> forall j: nat :: j < |c.ids| && x in IdsOf(c.segs[j]) ==>
                          (CopyIsLive(c.tombstones, r.value.superseded, c.ids[j], x) <==> j == s)
  {
    ScanResult(c);
    var r := ClaimAll(Tables(map[], c.superseded), c.tombstones, c.ids, c.segs);
    if r.Some? {
      var t, n := r.value, |c.ids|;
      assert OwnedFrom(t, c, s, x);
      assert Passed(c.ids, c.segs, n, 0, t.owners[x], x);
      var q: nat :| q < n && c.ids[q] == t.owners[x] && x in IdsOf(c.segs[q]);
      assert CopyIsLive(c.tombstones, t.superseded, c.ids[q], x) <==> Claimed(t, c.ids[q], x);
      assert q == s;
    }
  }

  /** What a manifest of any age guarantees about its tables. */
  ghost predicate Plausible(c: Scan, next: nat) {
    && WellFormed(c) && Increasing(c.ids)
    && (forall i :: 0 <= i < |c.ids| ==> c.ids[i] < next)
    && (forall i :: 0 <= i < |c.segs| ==> DistinctIds(c.segs[i]))
    && (forall k :: k in c.superseded ==> k in c.ids)
    && (forall k, x :: x in Dead(c.superseded, k) ==> HasCopy(c.segs, c.ids, k, x))
  }

  /** Every sealed copy of a tombstoned id is already recorded as superseded. */
  ghost predicate TombstonesMarked(c: Scan)
    requires WellFormed(c)
  {
    forall i: nat, x :: i < |c.segs| && x in IdsOf(c.segs[i]) && x in c.tombstones ==> x in Dead(c.superseded, c.ids[i])
  }

  function Opened(c: Scan, t: Tables, next: nat): Mem {
    Mem([], c.segs, c.ids, c.tombstones, {}, t.superseded, t.owners, next)
  }

  lemma NeverRepeats(c: Scan, next: nat)
    requires Plausible(c, next)
    ensures forall i: nat, j: nat :: !Repeats(c, i, j)
  {
    forall i: nat, j: nat | i < |c.ids| && j < |c.segs[i]| ensures c.segs[i][j].0 !in IdsOf(c.segs[i][..j]) {
      var es := c.segs[i];
      forall e | e in es[..j] ensures e.0 != es[j].0 {
        var q :| 0 <= q < j && es[q] == e;
      }
    }
  }

  /** The opened store is consistent if and only if every sealed copy of a tombstoned id
      was recorded as superseded. Manifests of the current layout meet this; one of the
      original layout does when none of its tombstones has a sealed copy. */
  lemma OpenedIff(c: Scan, next: nat)
    requires Plausible(c, next)
    ensures var r := ClaimAll(Tables(map[], c.superseded), c.tombstones, c.ids, c.segs);
            r.Some? && (MemInv(Opened(c, r.value, next)) <==> TombstonesMarked(c))
  {
    ScanResult(c);
    NeverRepeats(c, next);
    var t := ClaimAll(Tables(map[], c.superseded), c.tombstones, c.ids, c.segs).value;
    if TombstonesMarked(c) { MarkedIsTracked(c, t, next); }
    if MemInv(Opened(c, t, next)) { TrackedIsMarked(c, t, next); }
  }

  lemma MarkedIsTracked(c: Scan, t: Tables, next: nat)
    requires Plausible(c, next) && ScanAt(t, c, |c.ids|, 0) && TombstonesMarked(c)
    ensures MemInv(Opened(c, t, next))
  {
    var m := Opened(c, t, next);
    forall k, x | HasCopy(m.segments, m.segmentIds, k, x) ensures Owns(m, k, x) <==> x !in Dead(m.superseded, k) {
      var j: nat :| j < |c.segs| && c.ids[j] == k && x in IdsOf(c.segs[j]);
      assert CopyIsLive(c.tombstones, t.superseded, c.ids[j], x) <==> Claimed(t, c.ids[j], x);
    }
    forall k, x | x in Dead(m.superseded, k) ensures HasCopy(m.segments, m.segmentIds, k, x) {
      if x !in Dead(c.superseded, k) { assert Passed(c.ids, c.segs, |c.ids|, 0, k, x); }
    }
    forall x | x in m.owners ensures HasCopy(m.segments, m.segmentIds, m.owners[x], x) {
      assert Passed(c.ids, c.segs, |c.ids|, 0, t.owners[x], x);
    }
  }

  lemma TrackedIsMarked(c: Scan, t: Tables, next: nat)
    requires Plausible(c, next) && ScanAt(t, c, |c.ids|, 0) && MemInv(Opened(c, t, next))
    ensures TombstonesMarked(c)
  {
    var m := Opened(c, t, next);
    forall i: nat, x | i < |c.segs| && x in IdsOf(c.segs[i]) && x in c.tombstones
      ensures x in Dead(c.superseded, c.ids[i])
    {
      assert HasCopy(m.segments, m.segmentIds, c.ids[i], x);
      assert Owns(m, c.ids[i], x) <==> x !in Dead(m.superseded, c.ids[i]);
    }
  }

  // ---------------------------------------------------------------------------
  // What a caller sees
  // ---------------------------------------------------------------------------

  /** Two copies of one id, with different items, are visible at once. */
  ghost predicate SeenTwice(m: Mem, x: Id, y: Item, z: Item)
    requires |m.segments| == |m.segmentIds|
  {
    y != z && Visible(m, (x, y)) && Visible(m, (x, z))
  }

  /** A tombstoned copy that was not marked becomes visible again with the next add of its
      id, whichever two items there are to choose from. */
  lemma AddRevives(m: Mem, s: nat, e: Entry, z: Item)
    requires |m.segments| == |m.segmentIds| && s < |m.segments| && e in m.segments[s]
    requires e.0 in m.tombstones && e.0 !in Dead(m.superseded, m.segmentIds[s]) && e.0 !in m.owners && e.1 != z
    ensures var m' := Apply(m, Add(e.0, z));
            |m'.segments| == |m'.segmentIds| && SeenTwice(m', e.0, e.1, z)
  {
    ApplyTables(m, Add(e.0, z));
    var m' := Apply(m, Add(e.0, z));
    assert LiveSealed(m', s, e);
    assert m'.buffer[|m'.buffer| - 1] == (e.0, z);
  }

  lemma UnmarkedStays(c: Scan, t: Tables, i: nat, x: Id)
    requires WellFormed(c) && i < |c.ids| && ScanAt(t, c, |c.ids|, 0)
    requires x in c.tombstones && x !in Dead(c.superseded, c.ids[i])
    ensures x !in Dead(t.superseded, c.ids[i]) && x !in t.owners
  {
  }

  /** For every manifest with such a copy there is an add after which its id is seen
      twice. */
  lemma DeletedCopyReturns(c: Scan, next: nat, a: Item, b: Item) returns (x: Id, y: Item, z: Item)
    requires Plausible(c, next) && !TombstonesMarked(c) && a != b
    ensures var r := ClaimAll(Tables(map[], c.superseded), c.tombstones, c.ids, c.segs);
            && r.Some?
            && var m' := Apply(Opened(c, r.value, next), Add(x, z));
            && |m'.segments| == |m'.segmentIds| && SeenTwice(m', x, y, z)
  {
    ScanResult(c);
    NeverRepeats(c, next);
    var t := ClaimAll(Tables(map[], c.superseded), c.tombstones, c.ids, c.segs).value;
    var i: nat, x0 :| i < |c.segs| && x0 in IdsOf(c.segs[i]) && x0 in c.tombstones
                       && x0 !in Dead(c.superseded, c.ids[i]);
    var e :| e in c.segs[i] && e.0 == x0;
    x, y, z := e.0, e.1, if e.1 == a then b else a;
    UnmarkedStays(c, t, i, x);
    AddRevives(Opened(c, t, next), i, e, z);
  }

  /** Every later log folds over one map, as it does for a store that started empty. */
  ghost predicate ActsAsMap(m: Mem) { exists r :: FoldsFrom(m, r) }

  ghost predicate FoldsFrom(m: Mem, r: RefMap) {
    forall ops, threshold: nat :: Represents(Replay(m, ops, threshold), Fold(r, ops))
  }

  lemma ConsistentActsAsMap(m: Mem)
    requires MemInv(m)
    ensures ActsAsMap(m)
  {
    HoldsAMap(m);
    var r :| Represents(m, r);
    forall ops, threshold: nat ensures Represents(Replay(m, ops, threshold), Fold(r, ops)) {
      ReplayRefines(m, ops, threshold, r);
    }
    assert FoldsFrom(m, r);
  }

  lemma SeenTwiceIsNoMap(m: Mem, x: Id, y: Item, z: Item)
    requires m.buffer == []
    requires var m' := Apply(m, Add(x, z)); |m'.segments| == |m'.segmentIds| && SeenTwice(m', x, y, z)
    ensures !ActsAsMap(m)
  {
    var op := Add(x, z);
    AddedAlone(m, op);
    assert [op][..0] == [];
    assert Replay(m, [op], 2) == ApplySeal(Replay(m, [], 2), op, 2) == Apply(m, op);
    forall r ensures !FoldsFrom(m, r) {
      TwiceIsNoMap(Apply(m, op), x, y, z, Fold(r, [op]));
      assert !Represents(Replay(m, [op], 2), Fold(r, [op]));
    }
  }

  lemma TwiceIsNoMap(m: Mem, x: Id, y: Item, z: Item, r: RefMap)
    requires |m.segments| == |m.segmentIds| && SeenTwice(m, x, y, z)
    ensures !Represents(m, r)
  {
  }

  lemma AddedAlone(m: Mem, op: Op)
    requires m.buffer == [] && op.Add?
    ensures |Apply(m, op).buffer| == 1
  {
  }

  /** The opened store behaves as a map under every later log if and only if every sealed
      copy of a tombstoned id was recorded as superseded. */
  lemma OpenedActsAsMap(c: Scan, next: nat, a: Item, b: Item)
    requires Plausible(c, next) && a != b
    ensures var r := ClaimAll(Tables(map[], c.superseded), c.tombstones, c.ids, c.segs);
            r.Some? && (ActsAsMap(Opened(c, r.value, next)) <==> TombstonesMarked(c))
  {
    OpenedIff(c, next);
    var m := Opened(c, ClaimAll(Tables(map[], c.superseded), c.tombstones, c.ids, c.segs).value, next);
    if TombstonesMarked(c) {
      ConsistentActsAsMap(m);
    } else {
      var x, y, z := DeletedCopyReturns(c, next, a, b);
      SeenTwiceIsNoMap(m, x, y, z);
    }
  }

  /** The smallest such manifest: one deleted and unmarked copy. */
  lemma UnmarkedExample(x: Id, a: Item)
    ensures var c := Scan({x}, map[], [0], [[(x, a)]]); Plausible(c, 1) && !TombstonesMarked(c)
  {
    var c := Scan({x}, map[], [0], [[(x, a)]]);
    assert (x, a) in c.segs[0];
    assert x in IdsOf(c.segs[0]);
  }
}
