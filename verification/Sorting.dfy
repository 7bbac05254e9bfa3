/** A stable sort by a real-valued key. */
module Sorting {

  predicate SortedBy<T>(s: seq<T>, key: T -> real) {
    forall i, j :: 0 <= i < j < |s| ==> key(s[i]) <= key(s[j])
  }

  /** Insert after every element whose key is not larger. */
  function InsertSorted<T(!new)>(s: seq<T>, x: T, key: T -> real): (r: seq<T>)
    ensures |r| == |s| + 1 && forall e :: e in r <==> e in s || e == x
  {
    if s == [] then [x]
    else
      var n := |s| - 1;
      assert s == s[..n] + [s[n]];
      if key(s[n]) <= key(x) then s + [x]
      else InsertSorted(s[..n], x, key) + [s[n]]
  }

  function StableSort<T(!new)>(s: seq<T>, key: T -> real): (r: seq<T>)
    ensures |r| == |s| && forall e :: e in r <==> e in s
  {
    if s == [] then []
    else
      var n := |s| - 1;
      assert s == s[..n] + [s[n]];
      InsertSorted(StableSort(s[..n], key), s[n], key)
  }

  lemma {:induction false} InsertKeepsSorted<T(!new)>(s: seq<T>, x: T, key: T -> real)
    requires SortedBy(s, key)
    ensures SortedBy(InsertSorted(s, x, key), key)
  {
    if s != [] {
      var n := |s| - 1;
      if !(key(s[n]) <= key(x)) {
        var r := InsertSorted(s[..n], x, key);
        InsertKeepsSorted(s[..n], x, key);
        forall i | 0 <= i < |r| ensures key(r[i]) <= key(s[n]) {
          assert r[i] in r;
        }
      }
    }
  }

  lemma {:induction false} SortSorts<T(!new)>(s: seq<T>, key: T -> real)
    ensures SortedBy(StableSort(s, key), key)
  {
    if s != [] {
      var n := |s| - 1;
      SortSorts(s[..n], key);
      InsertKeepsSorted(StableSort(s[..n], key), s[n], key);
    }
  }

  lemma {:induction false} SortIsPermutation<T(!new)>(s: seq<T>, key: T -> real)
    ensures multiset(StableSort(s, key)) == multiset(s)
  {
    if s != [] {
      var n := |s| - 1;
      SortIsPermutation(s[..n], key);
      InsertAdds(StableSort(s[..n], key), s[n], key);
      assert s == s[..n] + [s[n]];
    }
  }

  lemma {:induction false} InsertAdds<T(!new)>(s: seq<T>, x: T, key: T -> real)
    ensures multiset(InsertSorted(s, x, key)) == multiset(s) + multiset{x}
  {
    if s != [] {
      var n := |s| - 1;
      assert s == s[..n] + [s[n]];
      if !(key(s[n]) <= key(x)) { InsertAdds(s[..n], x, key); }
    }
  }

  /** The elements with key `v`, in order. */
  function WithKey<T(!new)>(s: seq<T>, key: T -> real, v: real): seq<T> {
    if s == [] then []
    else WithKey(s[..|s| - 1], key, v) + if key(s[|s| - 1]) == v then [s[|s| - 1]] else []
  }

  lemma WithKeyLast<T(!new)>(s: seq<T>, x: T, key: T -> real, v: real)
    ensures WithKey(s + [x], key, v) == WithKey(s, key, v) + if key(x) == v then [x] else []
  {
    assert (s + [x])[..|s|] == s;
  }

  lemma {:induction false} InsertStable<T(!new)>(s: seq<T>, x: T, key: T -> real, v: real)
    ensures WithKey(InsertSorted(s, x, key), key, v) == WithKey(s, key, v) + if key(x) == v then [x] else []
  {
    if s == [] {
      assert InsertSorted(s, x, key)[..0] == [];
    } else if key(s[|s| - 1]) <= key(x) {
      WithKeyLast(s, x, key, v);
    } else {
      var n := |s| - 1;
      InsertStable(s[..n], x, key, v);
      WithKeyLast(InsertSorted(s[..n], x, key), s[n], key, v);
    }
  }

  /** Elements with equal keys keep their order. */
  lemma {:induction false} SortIsStable<T(!new)>(s: seq<T>, key: T -> real, v: real)
    ensures WithKey(StableSort(s, key), key, v) == WithKey(s, key, v)
  {
    if s != [] {
      var n := |s| - 1;
      SortIsStable(s[..n], key, v);
      InsertStable(StableSort(s[..n], key), s[n], key, v);
    }
  }

  lemma InsertAtEnd<T(!new)>(s: seq<T>, x: T, key: T -> real)
    requires s == [] || key(s[|s| - 1]) <= key(x)
    ensures InsertSorted(s, x, key) == s + [x]
  {
  }

  /** A sorted sequence is left alone, ties included. */
  lemma {:induction false} SortOfSorted<T(!new)>(s: seq<T>, key: T -> real)
    requires SortedBy(s, key)
    ensures StableSort(s, key) == s
  {
    if s != [] {
      var n := |s| - 1;
      SortOfSorted(s[..n], key);
      InsertAtEnd(s[..n], s[n], key);
      assert s == s[..n] + [s[n]];
    }
  }
}
