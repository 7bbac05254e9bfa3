/** Vocabulary shared by every module: items, operations, and the plain map that
    is the specification of the store. */
module Base {

  /** Ids and items are opaque to the store. */
  type Id(==, !new)
  type Item(==, !new)

  type Entry = (Id, Item)
  type Segment = seq<Entry>
  type RefMap = map<Id, Item>

  datatype Option<+T> = None | Some(value: T)

  /** How a disk action ends: it succeeds, or it is refused with its effect absent or
      nevertheless present. */
  datatype Fault = Success | Absent | Present

  /** One write-ahead-log operation. */
  datatype Op = Add(id: Id, item: Item) | Delete(id: Id)

  /** What an operation means on the reference map: last write wins. */
  function Step(r: RefMap, op: Op): RefMap {
    match op
    case Add(id, item) => r[id := item]
    case Delete(id) => r - {id}
  }

  function Fold(r: RefMap, ops: seq<Op>): RefMap {
    if ops == [] then r else Step(Fold(r, ops[..|ops| - 1]), ops[|ops| - 1])
  }

  lemma {:induction false} FoldSplit(r: RefMap, a: seq<Op>, b: seq<Op>)
    ensures Fold(r, a + b) == Fold(Fold(r, a), b)
    decreases |b|
  {
    if b == [] {
      assert a + b == a;
    } else {
      var n := |b| - 1;
      FoldSplit(r, a, b[..n]);
      assert (a + b)[..|a + b| - 1] == a + b[..n];
    }
  }

  ghost predicate Increasing(s: seq<nat>) {
    forall i, j :: 0 <= i < j < |s| ==> s[i] < s[j]
  }

  function Max(a: nat, b: nat): nat { if a < b then b else a }

  /** The ids stored in a run of entries. */
  function IdsOf(es: seq<Entry>): set<Id> { set e | e in es :: e.0 }

  ghost predicate DistinctIds(es: seq<Entry>) {
    forall i, j :: 0 <= i < j < |es| ==> es[i].0 != es[j].0
  }

  /** Entries whose id satisfies `keep`, in order. */
  function Filter(es: seq<Entry>, keep: Id -> bool): (r: seq<Entry>)
    ensures forall e :: e in r <==> e in es && keep(e.0)
    ensures |r| <= |es|
  {
    if es == [] then []
    else
      var n := |es| - 1;
      var r := Filter(es[..n], keep);
      assert es == es[..n] + [es[n]];
      if keep(es[n].0) then r + [es[n]] else r
  }

  lemma {:induction false} FilterDistinct(es: seq<Entry>, keep: Id -> bool)
    requires DistinctIds(es)
    ensures DistinctIds(Filter(es, keep))
  {
    if es != [] {
      var n := |es| - 1;
      FilterDistinct(es[..n], keep);
      var r := Filter(es[..n], keep);
      forall i | 0 <= i < |r| ensures r[i].0 != es[n].0 {
        assert r[i] in es[..n];
      }
    }
  }

  lemma {:induction false} FilterCong(es: seq<Entry>, f: Id -> bool, g: Id -> bool)
    requires forall e :: e in es ==> f(e.0) == g(e.0)
    ensures Filter(es, f) == Filter(es, g)
  {
    if es != [] {
      FilterCong(es[..|es| - 1], f, g);
    }
  }

  /** Indices below `n` that are not in `drop`, ascending. */
  function Kept(n: nat, drop: set<nat>): (r: seq<nat>)
    ensures Increasing(r)
    ensures forall i: nat :: i in r <==> i < n && i !in drop
  {
    if n == 0 then []
    else
      var r := Kept(n - 1, drop);
      if n - 1 in drop then r
      else
        assert forall i :: 0 <= i < |r| ==> r[i] in r;
        r + [n - 1]
  }

  lemma {:induction false} KeptLength(n: nat, drop: set<nat>)
    requires forall i :: i in drop ==> i < n
    ensures |Kept(n, drop)| + |drop| == n
  {
    if n == 0 {
      assert drop == {};
    } else if n - 1 in drop {
      KeptLength(n - 1, drop - {n - 1});
      KeptSame(n - 1, drop, drop - {n - 1});
    } else {
      KeptLength(n - 1, drop);
    }
  }

  lemma {:induction false} KeptSame(n: nat, a: set<nat>, b: set<nat>)
    requires forall i: nat :: i < n ==> (i in a <==> i in b)
    ensures Kept(n, a) == Kept(n, b)
  {
    if n > 0 { KeptSame(n - 1, a, b); }
  }

  function Indices(s: seq<nat>): set<nat> { set i | i in s }

  lemma {:induction false} IndicesCount(s: seq<nat>)
    requires forall i, j :: 0 <= i < j < |s| ==> s[i] != s[j]
    ensures |Indices(s)| == |s|
  {
    if s != [] {
      var n := |s| - 1;
      IndicesCount(s[..n]);
      assert s == s[..n] + [s[n]];
      assert Indices(s) == Indices(s[..n]) + {s[n]};
    }
  }

  ghost predicate Within(at: seq<nat>, n: nat) {
    forall i :: 0 <= i < |at| ==> at[i] < n
  }

  function Pick<T>(s: seq<T>, at: seq<nat>): (r: seq<T>)
    requires Within(at, |s|)
    ensures |r| == |at|
    ensures forall i :: 0 <= i < |at| ==> r[i] == s[at[i]]
  {
    seq(|at|, i requires 0 <= i < |at| => s[at[i]])
  }
}
