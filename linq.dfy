/**
 * The LINQ operators the controllers use (Where, Count, Any, FirstOrDefault, Select,
 * OrderBy, Skip, Take, Sum), as functions over sequences. A table is a sequence of rows in
 * primary-key order, so "first" means first in that order.
 */
module Linq {
  import opened Wrappers

  /** `Where(p)`: the elements of `s` that satisfy `p`, in their original order. */
  function Where<T>(s: seq<T>, p: T -> bool): (r: seq<T>)
    ensures |r| <= |s|
    ensures forall x :: x in r ==> x in s && p(x)
    ensures forall x :: x in s && p(x) ==> x in r
    decreases |s|
  {
    if s == [] then []
    else
      var init, last := s[..|s| - 1], s[|s| - 1];
      assert s == init + [last];
      Where(init, p) + (if p(last) then [last] else [])
  }

  /** `Count(p)`. */
  function Count<T>(s: seq<T>, p: T -> bool): nat {
    |Where(s, p)|
  }

  /** `Any(p)`. */
  predicate Any<T>(s: seq<T>, p: T -> bool) {
    exists i :: 0 <= i < |s| && p(s[i])
  }

  /** `Where` distributes over concatenation. */
  lemma {:induction false} WhereAppend<T>(s: seq<T>, t: seq<T>, p: T -> bool)
    ensures Where(s + t, p) == Where(s, p) + Where(t, p)
    decreases |t|
  {
    if t == [] {
      assert s + t == s;
    } else {
      var init, last := t[..|t| - 1], t[|t| - 1];
      assert (s + t)[..|s + t| - 1] == s + init;
      assert (s + t)[|s + t| - 1] == last;
      WhereAppend(s, init, p);
    }
  }

  /** A filter that keeps everything is the identity. */
  lemma {:induction false} WhereAll<T>(s: seq<T>, p: T -> bool)
    requires forall i :: 0 <= i < |s| ==> p(s[i])
    ensures Where(s, p) == s
    decreases |s|
  {
    if s != [] {
      var init := s[..|s| - 1];
      assert s == init + [s[|s| - 1]];
      WhereAll(init, p);
    }
  }

  /** Filters that agree on the elements of `s` select the same elements. */
  lemma {:induction false} WhereSamePredicate<T>(s: seq<T>, p: T -> bool, q: T -> bool)
    requires forall i :: 0 <= i < |s| ==> p(s[i]) == q(s[i])
    ensures Where(s, p) == Where(s, q)
    decreases |s|
  {
    if s != [] {
      var init := s[..|s| - 1];
      assert s == init + [s[|s| - 1]];
      WhereSamePredicate(init, p, q);
    }
  }

  /** A filter that keeps nothing yields the empty sequence. */
  lemma WhereNone<T>(s: seq<T>, p: T -> bool)
    requires forall i :: 0 <= i < |s| ==> !p(s[i])
    ensures Where(s, p) == []
  {
  }

  /** `Any(p)` holds exactly when `Where(p)` is non-empty. */
  lemma AnyIffWhere<T>(s: seq<T>, p: T -> bool)
    ensures Any(s, p) <==> Where(s, p) != []
  {
    if Any(s, p) {
      var i :| 0 <= i < |s| && p(s[i]);
      assert s[i] in Where(s, p);
    }
    if Where(s, p) != [] {
      assert Where(s, p)[0] in Where(s, p);
    }
  }

  predicate StrictlyAscending<T>(s: seq<T>, key: T -> int) {
    forall i, j :: 0 <= i < j < |s| ==> key(s[i]) < key(s[j])
  }

  /** No two different elements of `s` share a key. */
  predicate UniqueOn<T(==), K(==)>(s: seq<T>, key: T -> K) {
    forall x, y :: x in s && y in s && key(x) == key(y) ==> x == y
  }

  /** No two positions of `s` share a key. */
  predicate DistinctOn<T, K(==)>(s: seq<T>, key: T -> K) {
    forall i, j :: 0 <= i < j < |s| ==> key(s[i]) != key(s[j])
  }

  lemma DistinctOnUnique<T, K>(s: seq<T>, key: T -> K)
    requires DistinctOn(s, key)
    ensures UniqueOn(s, key)
  {
    forall x, y | x in s && y in s && key(x) == key(y) ensures x == y {
      var i :| 0 <= i < |s| && s[i] == x;
      var j :| 0 <= j < |s| && s[j] == y;
    }
  }

  /** In a keyed table no row occurs twice, so unique values are unique positions. */
  lemma UniqueOnDistinct<T, K>(s: seq<T>, key: T -> K, id: T -> int)
    requires UniqueOn(s, key) && StrictlyAscending(s, id)
    ensures DistinctOn(s, key)
  {
    forall i, j | 0 <= i < j < |s| ensures key(s[i]) != key(s[j]) {
      assert id(s[i]) < id(s[j]);
      assert s[i] in s && s[j] in s;
    }
  }

  /** Filtering keeps the relative order of what it keeps. */
  lemma {:induction false} WhereAscending<T>(s: seq<T>, p: T -> bool, key: T -> int)
    requires StrictlyAscending(s, key)
    ensures StrictlyAscending(Where(s, p), key)
    decreases |s|
  {
    if s != [] {
      var init, last := s[..|s| - 1], s[|s| - 1];
      assert s == init + [last];
      WhereAscending(init, p, key);
      var w := Where(init, p);
      if p(last) {
        var r := w + [last];
        assert Where(s, p) == r;
        forall i, j | 0 <= i < j < |r| ensures key(r[i]) < key(r[j]) {
          if j == |w| {
            assert w[i] in init;
            var k :| 0 <= k < |init| && init[k] == w[i];
            assert s[k] == w[i];
          }
        }
      }
    }
  }

  /** `FirstOrDefault(p)`, as the index of the first element satisfying `p`. */
  function FirstIndex<T>(s: seq<T>, p: T -> bool): (r: Option<nat>)
    ensures r.Some? ==> r.value < |s| && p(s[r.value]) && forall j :: 0 <= j < r.value ==> !p(s[j])
    ensures r.None? ==> forall j :: 0 <= j < |s| ==> !p(s[j])
  {
    if s == [] then None
    else if p(s[0]) then Some(0)
    else
      match FirstIndex(s[1..], p)
      case None => None
      case Some(i) => Some(i + 1)
  }

  /** `Remove(row)` on a table: the row at index `k` is gone, the others keep their order. */
  function RemoveAt<T>(s: seq<T>, k: nat): (r: seq<T>)
    requires k < |s|
    ensures |r| == |s| - 1
    ensures forall i :: 0 <= i < k ==> r[i] == s[i]
    ensures forall i :: k <= i < |r| ==> r[i] == s[i + 1]
    ensures forall x :: x in r ==> x in s
  {
    s[..k] + s[k + 1..]
  }

  /** Removing the element at `k` takes it out of every filter that kept it. */
  lemma CountRemoveAt<T>(s: seq<T>, k: nat, p: T -> bool)
    requires k < |s|
    ensures Count(RemoveAt(s, k), p) == Count(s, p) - (if p(s[k]) then 1 else 0)
  {
    assert s == s[..k] + [s[k]] + s[k + 1..];
    WhereAppend(s[..k] + [s[k]], s[k + 1..], p);
    WhereAppend(s[..k], [s[k]], p);
    WhereAppend(s[..k], s[k + 1..], p);
  }

  /** `Select(f)`. */
  function Select<T, U>(s: seq<T>, f: T -> U): (r: seq<U>)
    ensures |r| == |s|
    ensures forall i :: 0 <= i < |s| ==> r[i] == f(s[i])
  {
    seq(|s|, i requires 0 <= i < |s| => f(s[i]))
  }

  /** `Sum(f)`. */
  function SumOf<T>(s: seq<T>, f: T -> int): int
    decreases |s|
  {
    if s == [] then 0 else SumOf(s[..|s| - 1], f) + f(s[|s| - 1])
  }

  lemma {:induction false} SumOfAppend<T>(s: seq<T>, t: seq<T>, f: T -> int)
    ensures SumOf(s + t, f) == SumOf(s, f) + SumOf(t, f)
    decreases |t|
  {
    if t == [] {
      assert s + t == s;
    } else {
      var init := t[..|t| - 1];
      assert (s + t)[..|s + t| - 1] == s + init;
      assert (s + t)[|s + t| - 1] == t[|t| - 1];
      SumOfAppend(s, init, f);
    }
  }

  /** `Skip(n)`: a non-positive count skips nothing. */
  function Skip<T>(s: seq<T>, n: int): (r: seq<T>)
    ensures n <= 0 ==> r == s
    ensures n > 0 ==> |r| == if n >= |s| then 0 else |s| - n
    ensures n > 0 ==> forall i :: 0 <= i < |r| ==> r[i] == s[n + i]
  {
    if n <= 0 then s else if n >= |s| then [] else s[n..]
  }

  /** `Take(n)`: a non-positive count takes nothing. */
  function Take<T>(s: seq<T>, n: int): (r: seq<T>)
    ensures n <= 0 ==> r == []
    ensures n > 0 ==> |r| == if n >= |s| then |s| else n
    ensures forall i :: 0 <= i < |r| ==> r[i] == s[i]
  {
    if n <= 0 then [] else if n >= |s| then s else s[..n]
  }

  /** A window of an ascending sequence is ascending. */
  lemma WindowAscending<T>(s: seq<T>, key: T -> int, n: int, m: int)
    requires StrictlyAscending(s, key)
    ensures StrictlyAscending(Take(Skip(s, n), m), key)
  {
    var p := Take(Skip(s, n), m);
    forall i, j | 0 <= i < j < |p| ensures key(p[i]) < key(p[j]) {
      if n > 0 {
        assert p[i] == s[n + i] && p[j] == s[n + j];
      }
    }
  }

  predicate SortedBy<T>(s: seq<T>, key: T -> real) {
    forall i, j :: 0 <= i < j < |s| ==> key(s[i]) <= key(s[j])
  }

  /** Inserts `x` in front of the first element whose key is not smaller. */
  function InsertBy<T>(x: T, s: seq<T>, key: T -> real): (r: seq<T>)
    ensures |r| == |s| + 1
    ensures multiset(r) == multiset(s) + multiset{x}
    ensures forall y :: y in r ==> y == x || y in s
  {
    if s == [] then [x]
    else if key(x) <= key(s[0]) then [x] + s
    else
      assert s == [s[0]] + s[1..];
      [s[0]] + InsertBy(x, s[1..], key)
  }

  lemma SortedCons<T>(a: T, t: seq<T>, key: T -> real)
    requires SortedBy(t, key)
    requires forall j :: 0 <= j < |t| ==> key(a) <= key(t[j])
    ensures SortedBy([a] + t, key)
  {
    var r := [a] + t;
    forall i, j | 0 <= i < j < |r| ensures key(r[i]) <= key(r[j]) {
      assert r[j] == t[j - 1];
      if i > 0 {
        assert r[i] == t[i - 1];
      }
    }
  }

  /** Insertion keeps a sorted sequence sorted. */
  lemma {:induction false} InsertBySorted<T>(x: T, s: seq<T>, key: T -> real)
    requires SortedBy(s, key)
    ensures SortedBy(InsertBy(x, s, key), key)
  {
    if s == [] {
    } else if key(x) <= key(s[0]) {
      SortedCons(x, s, key);
    } else {
      var tail := s[1..];
      assert SortedBy(tail, key);
      var rest := InsertBy(x, tail, key);
      InsertBySorted(x, tail, key);
      forall j | 0 <= j < |rest| ensures key(s[0]) <= key(rest[j]) {
        var y := rest[j];
        assert y in rest;
        if y != x {
          var k :| 0 <= k < |tail| && tail[k] == y;
          assert s[k + 1] == y;
        }
      }
      SortedCons(s[0], rest, key);
    }
  }

  /**
   * `OrderBy(key)` as an insertion sort. SQL leaves the order of equal keys open; this
   * sort keeps them in table order.
   */
  function SortBy<T>(s: seq<T>, key: T -> real): (r: seq<T>)
    ensures |r| == |s|
    ensures multiset(r) == multiset(s)
    ensures SortedBy(r, key)
  {
    if s == [] then []
    else
      assert s == [s[0]] + s[1..];
      var rest := SortBy(s[1..], key);
      InsertBySorted(s[0], rest, key);
      InsertBy(s[0], rest, key)
  }

  /** The head of a sorted sequence has the least key, and sorting keeps the elements. */
  lemma SortByHeadLeast<T>(s: seq<T>, key: T -> real)
    requires s != []
    ensures SortBy(s, key)[0] in s
    ensures forall x :: x in s ==> key(SortBy(s, key)[0]) <= key(x)
  {
    var r := SortBy(s, key);
    assert r[0] in multiset(s);
    forall x | x in s ensures key(r[0]) <= key(x) {
      assert x in multiset(r);
      var j :| 0 <= j < |r| && r[j] == x;
      if j > 0 {
        assert key(r[0]) <= key(r[j]);
      }
    }
  }

  /** Sorting a sequence whose keys already strictly ascend changes nothing. */
  lemma {:induction false} SortByAscendingIdentity<T>(s: seq<T>, key: T -> real)
    requires forall i, j :: 0 <= i < j < |s| ==> key(s[i]) < key(s[j])
    ensures SortBy(s, key) == s
  {
    if s != [] {
      SortByAscendingIdentity(s[1..], key);
      assert s == [s[0]] + s[1..];
    }
  }
}
