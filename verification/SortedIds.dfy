/** Sorted, deduplicated id lists: the canonical form of a set of ids. */
module SortedIds {
  import opened Base
  import opened Sorting

  function Num(): nat -> real { (x: nat) => x as real }

  function InsertId(r: seq<nat>, x: nat): (r': seq<nat>)
    requires Increasing(r)
    ensures Increasing(r') && forall y :: y in r' <==> y in r || y == x
  {
    if r == [] then [x]
    else
      var n := |r| - 1;
      assert r == r[..n] + [r[n]];
      if r[n] < x then r + [x]
      else if r[n] == x then r
      else
        var low := InsertId(r[..n], x);
        assert forall i :: 0 <= i < |low| ==> low[i] in low;
        low + [r[n]]
  }

  /** The ids of `s`, ascending and without duplicates. */
  function Sorted(s: seq<nat>): (r: seq<nat>)
    ensures Increasing(r) && forall y :: y in r <==> y in s
  {
    if s == [] then []
    else
      assert s == s[..|s| - 1] + [s[|s| - 1]];
      InsertId(Sorted(s[..|s| - 1]), s[|s| - 1])
  }

  /** An ascending list is determined by its members. */
  lemma {:induction false} Canonical(a: seq<nat>, b: seq<nat>)
    requires Increasing(a) && Increasing(b) && forall x :: x in a <==> x in b
    ensures a == b
  {
    NonEmpty(a, b);
    NonEmpty(b, a);
    if a != [] {
      var a', x, b', y := a[..|a| - 1], a[|a| - 1], b[..|b| - 1], b[|b| - 1];
      assert a == a' + [x] && b == b' + [y];
      SameLast(a', x, b', y);
      Canonical(a', b');
    }
  }

  lemma NonEmpty(a: seq<nat>, b: seq<nat>)
    requires forall x :: x in a ==> x in b
    ensures a != [] ==> b != []
  {
    if a != [] { assert a[0] in b; }
  }

  lemma SameLast(a: seq<nat>, x: nat, b: seq<nat>, y: nat)
    requires Increasing(a + [x]) && Increasing(b + [y]) && forall e :: e in a + [x] <==> e in b + [y]
    ensures x == y && forall e :: e in a <==> e in b
  {
    LastIsLargest(a, x);
    LastIsLargest(b, y);
    assert x in b + [y] && y in a + [x];
    forall e ensures e in a <==> e in b {
      assert e in a + [x] <==> e in b + [y];
    }
  }

  lemma LastIsLargest(a: seq<nat>, x: nat)
    requires Increasing(a + [x])
    ensures forall e :: e in a ==> e < x
  {
    var s := a + [x];
    forall e | e in a ensures e < x {
      var i :| 0 <= i < |a| && a[i] == e;
      assert s[i] == e && s[|a|] == x;
    }
  }

  /** Two lists have the same canonical form exactly when they have the same ids. */
  lemma SameIds(a: seq<nat>, b: seq<nat>)
    ensures Sorted(a) == Sorted(b) <==> forall x :: x in a <==> x in b
  {
    if forall x :: x in a <==> x in b { Canonical(Sorted(a), Sorted(b)); }
    if Sorted(a) == Sorted(b) { assert forall x :: x in Sorted(a) <==> x in a; }
  }

  /** Drop each element equal to the one before it. */
  method Dedup(s: seq<nat>) returns (r: seq<nat>)
    requires forall i, j :: 0 <= i < j < |s| ==> s[i] <= s[j]
    ensures Increasing(r) && forall x :: x in r <==> x in s
  {
    r := [];
    var i := 0;
    while i < |s|
      invariant 0 <= i <= |s| && Increasing(r)
      invariant i == 0 ==> r == []
      invariant i > 0 ==> r != [] && r[|r| - 1] == s[i - 1]
      invariant forall x :: x in r <==> x in s[..i]
    {
      assert s[..i + 1] == s[..i] + [s[i]];
      if i == 0 || s[i] != s[i - 1] { r := r + [s[i]]; }
      i := i + 1;
    }
    assert s[..|s|] == s;
  }

  /** Sort, then drop duplicates. */
  method SortDedup(ids: seq<nat>) returns (r: seq<nat>)
    ensures r == Sorted(ids)
  {
    var s := StableSort(ids, Num());
    SortSorts(ids, Num());
    assert forall i, j :: 0 <= i < j < |s| ==> Num()(s[i]) <= Num()(s[j]);
    r := Dedup(s);
    Canonical(r, Sorted(ids));
  }

  lemma NotUpTo(s: seq<nat>, i: nat, x: nat)
    requires Increasing(s) && i < |s| && s[i] < x
    ensures x !in s[..i + 1]
  {
    assert s[..i + 1] == s[..i] + [s[i]];
    forall y | y in s[..i] ensures y <= s[i] {}
  }

  lemma NotFrom(s: seq<nat>, i: nat, x: nat)
    requires Increasing(s) && i < |s| && s[i] > x
    ensures x !in s[i..]
  {
    forall y | y in s[i..] ensures y >= s[i] {}
  }

  /** Binary search over an ascending list finds exactly its members. */
  method BinarySearch(s: seq<nat>, x: nat) returns (found: bool)
    requires Increasing(s)
    ensures found <==> x in s
  {
    var base: nat, size: nat := 0, |s|;
    while size > 0
      invariant base + size <= |s|
      invariant x !in s[..base] && x !in s[base + size..]
    {
      var half := size / 2;
      var probe := base + half;
      if s[probe] == x { return true; }
      if s[probe] < x {
        NotUpTo(s, probe, x);
        base, size := probe + 1, size - half - 1;
      } else {
        NotFrom(s, probe, x);
        size := half;
      }
    }
    assert s[..base] + s[base..] == s;
    return false;
  }
}
