/** Stable sorting by a key, as Python's `sort` and `sorted` do. */
module Sorting {

  ghost predicate SortedBy<T>(key: T -> real, s: seq<T>) {
    forall i, k | 0 <= i < k < |s| :: key(s[i]) <= key(s[k])
  }

  /** x goes behind every element whose key is not larger. */
  function Insert<T>(key: T -> real, s: seq<T>, x: T): seq<T> {
    if s == [] || key(s[|s| - 1]) <= key(x) then s + [x]
    else Insert(key, s[..|s| - 1], x) + [s[|s| - 1]]
  }

  function Sort<T>(key: T -> real, s: seq<T>): seq<T> {
    if s == [] then [] else Insert(key, Sort(key, s[..|s| - 1]), s[|s| - 1])
  }

  lemma {:induction false} InsertPermutes<T>(key: T -> real, s: seq<T>, x: T)
    ensures multiset(Insert(key, s, x)) == multiset(s) + multiset{x}
  {
    if s != [] && key(s[|s| - 1]) > key(x) {
      InsertPermutes(key, s[..|s| - 1], x);
      assert s == s[..|s| - 1] + [s[|s| - 1]];
    }
  }

  lemma {:induction false} InsertSorted<T>(key: T -> real, s: seq<T>, x: T)
    requires SortedBy(key, s)
    ensures SortedBy(key, Insert(key, s, x))
  {
    if s != [] && key(s[|s| - 1]) > key(x) {
      var init, last := s[..|s| - 1], s[|s| - 1];
      var r := Insert(key, init, x);
      InsertSorted(key, init, x);
      InsertPermutes(key, init, x);
      forall k | 0 <= k < |r|
        ensures key(r[k]) <= key(last)
      {
        assert r[k] in multiset(r);
        if r[k] != x {
          assert r[k] in multiset(init);
          var m :| 0 <= m < |init| && init[m] == r[k];
          assert s[m] == r[k];
        }
      }
    }
  }

  /** The result is in order and has the same elements, each as often. */
  lemma {:induction false} SortIsRight<T>(key: T -> real, s: seq<T>)
    ensures SortedBy(key, Sort(key, s)) && multiset(Sort(key, s)) == multiset(s)
  {
    if s == [] {
    } else {
      var init, last := s[..|s| - 1], s[|s| - 1];
      SortIsRight(key, init);
      InsertSorted(key, Sort(key, init), last);
      InsertPermutes(key, Sort(key, init), last);
      assert s == init + [last];
    }
  }

  lemma SortMembers<T>(key: T -> real, s: seq<T>)
    ensures |Sort(key, s)| == |s|
    ensures forall x | x in Sort(key, s) :: x in s
    ensures forall x | x in s :: x in Sort(key, s)
  {
    SortIsRight(key, s);
    var r := Sort(key, s);
    assert |r| == |multiset(r)| && |s| == |multiset(s)|;
    assert forall x | x in r :: x in multiset(r);
    assert forall x | x in s :: x in multiset(s);
  }

  lemma {:induction false} SortPrefixKept<T>(key: T -> real, s: seq<T>, n: nat)
    requires SortedBy(key, s) && n <= |s|
    ensures Sort(key, s[..n]) == s[..n]
  {
    if n == 0 {
    } else {
      SortPrefixKept(key, s, n - 1);
      assert s[..n][..n - 1] == s[..n - 1];
      assert n > 1 ==> key(s[n - 2]) <= key(s[n - 1]);
      assert Insert(key, s[..n - 1], s[n - 1]) == s[..n - 1] + [s[n - 1]];
    }
  }

  /** A sequence in order stays as it is: equal keys keep their order. */
  lemma SortKeepsOrder<T>(key: T -> real, s: seq<T>)
    requires SortedBy(key, s)
    ensures Sort(key, s) == s
  {
    SortPrefixKept(key, s, |s|);
    assert s[..|s|] == s;
  }

  /** The elements with key v, in order. */
  function WithKey<T>(key: T -> real, s: seq<T>, v: real): seq<T> {
    if s == [] then []
    else WithKey(key, s[..|s| - 1], v) + if key(s[|s| - 1]) == v then [s[|s| - 1]] else []
  }

  lemma WithKeySnoc<T>(key: T -> real, s: seq<T>, x: T, v: real)
    ensures WithKey(key, s + [x], v) == WithKey(key, s, v) + if key(x) == v then [x] else []
  {
    assert (s + [x])[..|s|] == s;
  }

  lemma {:induction false} InsertStable<T>(key: T -> real, s: seq<T>, x: T, v: real)
    ensures WithKey(key, Insert(key, s, x), v) == WithKey(key, s, v) + if key(x) == v then [x] else []
  {
    if s == [] || key(s[|s| - 1]) <= key(x) {
      WithKeySnoc(key, s, x, v);
    } else {
      var init, last := s[..|s| - 1], s[|s| - 1];
      InsertStable(key, init, x, v);
      WithKeySnoc(key, Insert(key, init, x), last, v);
    }
  }

  /** Elements with equal keys keep their order. */
  lemma {:induction false} SortIsStable<T>(key: T -> real, s: seq<T>, v: real)
    ensures WithKey(key, Sort(key, s), v) == WithKey(key, s, v)
  {
    if s == [] {
    } else {
      var init, last := s[..|s| - 1], s[|s| - 1];
      SortIsStable(key, init, v);
      InsertStable(key, Sort(key, init), last, v);
    }
  }

  lemma {:induction false} InsertHead<T>(key: T -> real, s: seq<T>, x: T)
    requires s != [] && SortedBy(key, s)
    ensures var r := Insert(key, s, x);
      r != [] && if key(s[0]) <= key(x) then r[0] == s[0] else r[0] == x
  {
    if key(s[|s| - 1]) > key(x) && |s| > 1 {
      InsertHead(key, s[..|s| - 1], x);
    }
  }

  /** The first element comes first again unless a smaller one does. */
  lemma {:induction false} SortHead<T>(key: T -> real, s: seq<T>)
    requires s != []
    ensures var r := Sort(key, s);
      r != [] && (r[0] == s[0] || key(r[0]) < key(s[0]))
  {
    if |s| == 1 {
    } else {
      var init := s[..|s| - 1];
      SortHead(key, init);
      SortIsRight(key, init);
      InsertHead(key, Sort(key, init), s[|s| - 1]);
    }
  }
}
