/** An inverted index as the payload of the store: building a segment, merging segments
    and querying across segments and the buffer. */
module InvertedIndex {
  import opened Base
  import opened SortedIds

  type Term(==, !new)

  /** A document is an id with its terms. */
  type Doc = (nat, seq<Term>)

  /** A segment: for each term the documents that hold it. */
  type Postings = map<Term, seq<nat>>

  ghost predicate Holds(p: Postings, t: Term, x: nat) { t in p && x in p[t] }

  /** Ascending, duplicate-free, non-empty posting lists. */
  ghost predicate Tidy(p: Postings) {
    forall t :: t in p ==> p[t] != [] && Increasing(p[t])
  }

  /** Tidy postings are determined by which document holds which term. */
  lemma SamePostings(a: Postings, b: Postings)
    requires Tidy(a) && Tidy(b) && forall t, x :: Holds(a, t, x) <==> Holds(b, t, x)
    ensures a == b
  {
    HeldTerms(a, b);
    HeldTerms(b, a);
    forall t | t in a ensures a[t] == b[t] {
      assert forall x :: (x in a[t] <==> Holds(a, t, x)) && (x in b[t] <==> Holds(b, t, x));
      Canonical(a[t], b[t]);
    }
  }

  lemma HeldTerms(a: Postings, b: Postings)
    requires Tidy(a) && forall t, x :: Holds(a, t, x) ==> Holds(b, t, x)
    ensures forall t :: t in a ==> t in b
  {
    forall t | t in a ensures t in b {
      assert Holds(a, t, a[t][0]);
    }
  }

  // ---------------------------------------------------------------------------
  // Specifications
  // ---------------------------------------------------------------------------

  ghost predicate HasTerm(docs: seq<Doc>, t: Term, x: nat) {
    exists d :: d in docs && d.0 == x && t in d.1
  }

  function TermsOf(docs: seq<Doc>): set<Term> { set d, t | d in docs && t in d.1 :: t }

  function IdsWith(docs: seq<Doc>, t: Term): (r: seq<nat>)
    ensures forall x :: x in r <==> HasTerm(docs, t, x)
  {
    if docs == [] then []
    else
      var n := |docs| - 1;
      assert docs == docs[..n] + [docs[n]];
      if t in docs[n].1 then IdsWith(docs[..n], t) + [docs[n].0] else IdsWith(docs[..n], t)
  }

  /** The index of a batch of documents. */
  function Build(docs: seq<Doc>): Postings {
    map t | t in TermsOf(docs) :: Sorted(IdsWith(docs, t))
  }

  function LiveOnly(ids: seq<nat>, live: nat -> bool): (r: seq<nat>)
    ensures forall x :: x in r <==> x in ids && live(x)
  {
    if ids == [] then []
    else
      var n := |ids| - 1;
      assert ids == ids[..n] + [ids[n]];
      if live(ids[n]) then LiveOnly(ids[..n], live) + [ids[n]] else LiveOnly(ids[..n], live)
  }

  ghost predicate HeldLive(segs: seq<Postings>, live: nat -> bool, t: Term, x: nat) {
    live(x) && exists i :: 0 <= i < |segs| && Holds(segs[i], t, x)
  }

  /** The live postings of a term over all segments, in segment order. */
  function Gathered(segs: seq<Postings>, live: nat -> bool, t: Term): (r: seq<nat>)
    ensures forall x :: x in r <==> HeldLive(segs, live, t, x)
  {
    if segs == [] then []
    else
      var n := |segs| - 1;
      var r := Gathered(segs[..n], live, t);
      assert forall x ::
          HeldLive(segs, live, t, x) <==> HeldLive(segs[..n], live, t, x) || (live(x) && Holds(segs[n], t, x)) by {
        HeldSplit(segs, live, t);
      }
      if t in segs[n] then r + LiveOnly(segs[n][t], live) else r
  }

  lemma HeldSplit(segs: seq<Postings>, live: nat -> bool, t: Term)
    requires segs != []
    ensures var n := |segs| - 1;
            forall x ::
              HeldLive(segs, live, t, x) <==> HeldLive(segs[..n], live, t, x) || (live(x) && Holds(segs[n], t, x))
  {
    var n := |segs| - 1;
    forall x
      ensures HeldLive(segs, live, t, x) <==> HeldLive(segs[..n], live, t, x) || (live(x) && Holds(segs[n], t, x))
    {
      if i :| 0 <= i < |segs| && Holds(segs[i], t, x) {
        if i < n { assert Holds(segs[..n][i], t, x); }
      }
      if i :| 0 <= i < n && Holds(segs[..n][i], t, x) { assert Holds(segs[i], t, x); }
    }
  }

  function AllTerms(segs: seq<Postings>): set<Term> { set p, t | p in segs && t in p :: t }

  function Merge(segs: seq<Postings>, live: nat -> bool): Postings {
    map t | t in AllTerms(segs) && Gathered(segs, live, t) != [] :: Sorted(Gathered(segs, live, t))
  }

  function DocIds(p: Postings): set<nat> { set t, x | t in p && x in p[t] :: x }

  lemma BuildHolds(docs: seq<Doc>)
    ensures Tidy(Build(docs)) && forall t, x :: Holds(Build(docs), t, x) <==> HasTerm(docs, t, x)
  {
    forall t | t in Build(docs) ensures Build(docs)[t] != [] {
      var d :| d in docs && t in d.1;
      assert HasTerm(docs, t, d.0) && d.0 in Build(docs)[t];
    }
    forall t, x | HasTerm(docs, t, x) ensures Holds(Build(docs), t, x) {
      assert t in TermsOf(docs);
    }
  }

  lemma MergeHolds(segs: seq<Postings>, live: nat -> bool)
    ensures Tidy(Merge(segs, live)) && forall t, x :: Holds(Merge(segs, live), t, x) <==> HeldLive(segs, live, t, x)
  {
    var m := Merge(segs, live);
    forall t | t in m ensures m[t] != [] {
      assert Gathered(segs, live, t)[0] in m[t];
    }
    forall t, x | HeldLive(segs, live, t, x) ensures Holds(m, t, x) {
      var i :| 0 <= i < |segs| && Holds(segs[i], t, x);
      assert segs[i] in segs && x in Gathered(segs, live, t);
    }
  }

  // ---------------------------------------------------------------------------
  // Merging built segments is building from the filtered concatenation
  // ---------------------------------------------------------------------------

  function Concat(batches: seq<seq<Doc>>): (r: seq<Doc>)
    ensures forall d :: d in r <==> exists i :: 0 <= i < |batches| && d in batches[i]
  {
    if batches == [] then []
    else
      var n := |batches| - 1;
      assert forall i :: 0 <= i < n ==> batches[..n][i] == batches[i];
      Concat(batches[..n]) + batches[n]
  }

  function LiveDocs(docs: seq<Doc>, live: nat -> bool): (r: seq<Doc>)
    ensures forall d :: d in r <==> d in docs && live(d.0)
  {
    if docs == [] then []
    else
      var n := |docs| - 1;
      assert docs == docs[..n] + [docs[n]];
      if live(docs[n].0) then LiveDocs(docs[..n], live) + [docs[n]] else LiveDocs(docs[..n], live)
  }

  function BuildAll(batches: seq<seq<Doc>>): (r: seq<Postings>)
    ensures |r| == |batches| && forall i :: 0 <= i < |r| ==> r[i] == Build(batches[i])
  {
    seq(|batches|, i requires 0 <= i < |batches| => Build(batches[i]))
  }

  lemma MergeOfBuilt(batches: seq<seq<Doc>>, live: nat -> bool)
    ensures Merge(BuildAll(batches), live) == Build(LiveDocs(Concat(batches), live))
  {
    var segs, docs := BuildAll(batches), LiveDocs(Concat(batches), live);
    MergeHolds(segs, live);
    BuildHolds(docs);
    forall t, x ensures HeldLive(segs, live, t, x) <==> HasTerm(docs, t, x) {
      if HeldLive(segs, live, t, x) {
        var i :| 0 <= i < |segs| && Holds(segs[i], t, x);
        BuildHolds(batches[i]);
        var d :| d in batches[i] && d.0 == x && t in d.1;
        assert d in docs;
      }
      if HasTerm(docs, t, x) {
        var d :| d in docs && d.0 == x && t in d.1;
        var i :| 0 <= i < |batches| && d in batches[i];
        BuildHolds(batches[i]);
        assert HasTerm(batches[i], t, x) && Holds(segs[i], t, x);
      }
    }
    SamePostings(Merge(segs, live), Build(docs));
  }

  /** The size metric of a built segment: its distinct documents that hold a term. */
  lemma BuiltDocIds(docs: seq<Doc>)
    ensures DocIds(Build(docs)) == set d | d in docs && d.1 != [] :: d.0
  {
    BuildHolds(docs);
    forall d | d in docs && d.1 != [] ensures d.0 in DocIds(Build(docs)) {
      assert HasTerm(docs, d.1[0], d.0) && Holds(Build(docs), d.1[0], d.0);
    }
    forall x | x in DocIds(Build(docs)) ensures exists d :: d in docs && d.1 != [] && d.0 == x {
      var t :| t in Build(docs) && x in Build(docs)[t];
      assert Holds(Build(docs), t, x) && HasTerm(docs, t, x);
    }
  }

  // ---------------------------------------------------------------------------
  // The loops
  // ---------------------------------------------------------------------------

  function ListAt(p: Postings, t: Term): seq<nat> { if t in p then p[t] else [] }

  /** What the building loop has collected before sorting. */
  ghost predicate Collected(p: Postings, docs: seq<Doc>) {
    (forall t :: t in p ==> p[t] != []) && forall t, x :: Holds(p, t, x) <==> HasTerm(docs, t, x)
  }

  lemma PushHolds(p: Postings, t: Term, ids: seq<nat>)
    ensures var q := p[t := ListAt(p, t) + ids];
            forall u, x :: Holds(q, u, x) <==> Holds(p, u, x) || (u == t && x in ids)
  {
  }

  lemma DocSplit(docs: seq<Doc>, d: Doc)
    ensures forall t, x :: HasTerm(docs + [d], t, x) <==> HasTerm(docs, t, x) || (x == d.0 && t in d.1)
  {
    forall t, x ensures HasTerm(docs + [d], t, x) <==> HasTerm(docs, t, x) || (x == d.0 && t in d.1) {
      if HasTerm(docs, t, x) { var e :| e in docs && e.0 == x && t in e.1; assert e in docs + [d]; }
      assert d in docs + [d];
    }
  }

  method PushTerms(p: Postings, d: Doc) returns (q: Postings)
    requires forall t :: t in p ==> p[t] != []
    ensures forall t :: t in q ==> q[t] != []
    ensures forall t, x :: Holds(q, t, x) <==> Holds(p, t, x) || (x == d.0 && t in d.1)
  {
    q := p;
    var j := 0;
    while j < |d.1|
      invariant 0 <= j <= |d.1|
      invariant forall t :: t in q ==> q[t] != []
      invariant forall t, x :: Holds(q, t, x) <==> Holds(p, t, x) || (x == d.0 && t in d.1[..j])
    {
      PushHolds(q, d.1[j], [d.0]);
      assert d.1[..j + 1] == d.1[..j] + [d.1[j]];
      q := q[d.1[j] := ListAt(q, d.1[j]) + [d.0]];
      j := j + 1;
    }
    assert d.1[..|d.1|] == d.1;
  }

  /** Sort and deduplicate every posting list. */
  method TidyLists(p: Postings) returns (q: Postings)
    ensures q.Keys == p.Keys && forall t :: t in p ==> q[t] == Sorted(p[t])
  {
    q := p;
    var rest := p.Keys;
    while rest != {}
      invariant rest <= p.Keys == q.Keys
      invariant forall t :: t in p ==> q[t] == if t in rest then p[t] else Sorted(p[t])
      decreases |rest|
    {
      var t :| t in rest;
      rest := rest - {t};
      var ids := SortDedup(q[t]);
      q := q[t := ids];
    }
  }

  lemma TidiedHolds(p: Postings, q: Postings)
    requires q.Keys == p.Keys && forall t :: t in p ==> q[t] == Sorted(p[t])
    ensures forall t, x :: Holds(q, t, x) <==> Holds(p, t, x)
  {
  }

  method BuildSegment(batch: seq<Doc>) returns (seg: Postings)
    ensures seg == Build(batch)
  {
    seg := map[];
    var i := 0;
    while i < |batch|
      invariant 0 <= i <= |batch| && Collected(seg, batch[..i])
    {
      DocSplit(batch[..i], batch[i]);
      assert batch[..i + 1] == batch[..i] + [batch[i]];
      seg := PushTerms(seg, batch[i]);
      i := i + 1;
    }
    assert batch[..|batch|] == batch;
    ghost var raw := seg;
    seg := TidyLists(seg);
    TidiedHolds(raw, seg);
    BuildHolds(batch);
    forall t | t in seg ensures seg[t] != [] { assert raw[t][0] in seg[t]; }
    SamePostings(seg, Build(batch));
  }

  /** Append the live part of one segment to the output. */
  method ExtendLive(out: Postings, seg: Postings, live: nat -> bool) returns (q: Postings)
    ensures forall t, x :: Holds(q, t, x) <==> Holds(out, t, x) || (live(x) && Holds(seg, t, x))
  {
    q := out;
    var rest := seg.Keys;
    while rest != {}
      invariant rest <= seg.Keys
      invariant forall t, x :: Holds(q, t, x) <==> Holds(out, t, x) || (t !in rest && live(x) && Holds(seg, t, x))
      decreases |rest|
    {
      var t :| t in rest;
      rest := rest - {t};
      PushHolds(q, t, LiveOnly(seg[t], live));
      q := q[t := ListAt(q, t) + LiveOnly(seg[t], live)];
    }
  }

  method MergeSegments(segs: seq<Postings>, live: nat -> bool) returns (out: Postings)
    ensures out == Merge(segs, live)
  {
    out := map[];
    var i := 0;
    while i < |segs|
      invariant 0 <= i <= |segs|
      invariant forall t, x :: Holds(out, t, x) <==> HeldLive(segs[..i], live, t, x)
    {
      forall t, x ensures HeldLive(segs[..i + 1], live, t, x) <==>
                          HeldLive(segs[..i], live, t, x) || (live(x) && Holds(segs[i], t, x)) {
        HeldSplit(segs[..i + 1], live, t);
        assert segs[..i + 1][..i] == segs[..i];
      }
      out := ExtendLive(out, segs[i], live);
      i := i + 1;
    }
    assert segs[..|segs|] == segs;
    ghost var raw := out;
    out := TidyLists(out);
    TidiedHolds(raw, out);
    out := map t | t in out && out[t] != [] :: out[t];
    MergeHolds(segs, live);
    SamePostings(out, Merge(segs, live));
  }

  method SegmentLen(seg: Postings) returns (n: nat)
    ensures n == |DocIds(seg)|
  {
    var docs: set<nat> := {};
    var rest := seg.Keys;
    while rest != {}
      invariant rest <= seg.Keys
      invariant forall x :: x in docs <==> exists t :: t in seg && t !in rest && x in seg[t]
      decreases |rest|
    {
      var t :| t in rest;
      rest := rest - {t};
      docs := docs + set x | x in seg[t];
    }
    assert docs == DocIds(seg);
    n := |docs|;
  }
}
