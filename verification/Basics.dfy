/** What the other modules share: numbers, finite sets and concatenation. */
module Basics {

  datatype Option<T> = None | Some(value: T)

  /** The corners of a box on the page: left, top, right, bottom. */
  datatype RealBox = RealBox(x0: real, y0: real, x1: real, y1: real)

  function Min(a: int, b: int): int {
    if a < b then a else b
  }

  function Max(a: int, b: int): int {
    if a > b then a else b
  }

  function Abs(n: int): nat {
    if n < 0 then -n else n
  }

  function AbsReal(x: real): real {
    if x < 0.0 then -x else x
  }

  /** Conversion to an integer drops the fraction, towards zero. */
  function Trunc(x: real): int {
    if x >= 0.0 then x.Floor else -(-x).Floor
  }

  lemma TruncTowardsZero(x: real)
    ensures x >= 0.0 ==> Trunc(x) as real <= x < Trunc(x) as real + 1.0
    ensures Trunc(-x) == -Trunc(x)
  {
  }

  // ----- finite sets

  function Range(n: nat): set<nat> {
    if n == 0 then {} else Range(n - 1) + {n - 1}
  }

  lemma {:induction false} InRange(n: nat, k: int)
    ensures k >= 0 ==> (k in Range(n) <==> k < n)
    ensures |Range(n)| == n
  {
    if n == 0 {
    } else {
      InRange(n - 1, k);
      InRange(n - 1, n - 1);
    }
  }

  lemma {:induction false} SubsetSize<T>(a: set<T>, b: set<T>)
    requires a <= b
    ensures |a| <= |b|
  {
    if a == {} {
    } else {
      var x :| x in a;
      SubsetSize(a - {x}, b - {x});
    }
  }

  lemma ProperSubsetSize<T>(a: set<T>, b: set<T>)
    requires a < b
    ensures |a| < |b|
  {
    var x :| x in b && x !in a;
    SubsetSize(a, b - {x});
  }

  lemma TwoElements<T>(s: set<T>, u: T, v: T)
    requires |s| == 2 && u in s && v in s && u != v
    ensures s == {u, v}
  {
    assert |s - {u} - {v}| == 0;
    assert s - {u} - {v} == {};
  }

  /** The elements of a set, each once, in any order. */
  method Listed<T(==)>(s: set<T>) returns (list: seq<T>)
    ensures forall x :: x in list <==> x in s
    ensures forall i, k | 0 <= i < k < |list| :: list[i] != list[k]
  {
    list := [];
    var todo := s;
    while todo != {}
      invariant todo <= s && forall x :: x in list <==> x in s && x !in todo
      invariant forall i, k | 0 <= i < k < |list| :: list[i] != list[k]
      decreases todo
    {
      var x :| x in todo;
      todo := todo - {x};
      list := list + [x];
    }
  }

  // ----- induction

  ghost predicate PassesDown(p: nat -> bool, i: nat) {
    p(i + 1) ==> p(i)
  }

  /** What holds at n and is passed on from each number to the one below holds at every number up to n. */
  lemma {:induction false} DownFrom(p: nat -> bool, n: nat, k: nat)
    requires k <= n && p(n) && forall i: nat | i < n :: PassesDown(p, i)
    ensures p(k)
    decreases n - k
  {
    if k == n {
    } else {
      DownFrom(p, n, k + 1);
      assert PassesDown(p, k);
    }
  }

  // ----- sequences

  /** s without its element at place k. */
  function Remove<T>(s: seq<T>, k: nat): seq<T>
    requires k < |s|
  {
    s[..k] + s[k + 1..]
  }

  lemma Assoc<T>(a: seq<T>, b: seq<T>, c: seq<T>)
    ensures (a + b) + c == a + (b + c)
  {
  }

  lemma Regroup<T>(a: seq<T>, b: seq<T>, c: seq<T>, d: seq<T>)
    ensures (a + b) + (c + d) == a + (b + c) + d
  {
  }

  lemma LastSplit<T>(s: seq<T>)
    requires s != []
    ensures s == s[..|s| - 1] + [s[|s| - 1]]
  {
  }

  lemma LastOfAppend<T>(a: seq<T>, b: seq<T>)
    requires b != []
    ensures (a + b)[|a + b| - 1] == b[|b| - 1]
    ensures (a + b)[..|a + b| - 1] == a + b[..|b| - 1]
  {
  }

  lemma FirstOfAppend<T>(a: seq<T>, b: seq<T>)
    requires a != []
    ensures (a + b)[0] == a[0]
    ensures (a + b)[1..] == a[1..] + b
  {
  }
}
