/**
 * Sequence operations shared by the read paths: a query's `where` (Filter),
 * `take`/`slice(0, n)` (Take), `skip` (Drop) and `orderBy ... desc` /
 * `Array.prototype.sort` with a descending comparator (SortDesc, a stable
 * insertion sort on a real-valued key).
 */
module Sorting {

  /** Elements of `s` in order, kept exactly when `p` holds. */
  function Filter<T>(s: seq<T>, p: T -> bool): (r: seq<T>)
    ensures |r| <= |s|
    ensures forall i | 0 <= i < |r| :: p(r[i]) && r[i] in s
    ensures forall i | 0 <= i < |s| :: p(s[i]) ==> s[i] in r
  {
    if s == [] then []
    else if p(s[0]) then [s[0]] + Filter(s[1..], p)
    else Filter(s[1..], p)
  }

  /** The first `n` elements, or all of them when there are fewer. */
  function Take<T>(s: seq<T>, n: int): (r: seq<T>)
    ensures |r| == if 0 <= n <= |s| then n else if n < 0 then 0 else |s|
    ensures r <= s
  {
    if n <= 0 then [] else if n <= |s| then s[..n] else s
  }

  /** All but the first `n` elements. */
  function Drop<T>(s: seq<T>, n: nat): (r: seq<T>)
    ensures |r| == if n <= |s| then |s| - n else 0
    ensures forall i | 0 <= i < |r| :: r[i] == s[n + i]
  {
    if n <= |s| then s[n..] else []
  }

  /** Keys never increase from left to right. */
  ghost predicate SortedDesc<T>(s: seq<T>, key: T -> real) {
    forall i, j | 0 <= i < j < |s| :: key(s[i]) >= key(s[j])
  }

  /** Inserts `x` before the first element whose key is not greater than its own. */
  function Insert<T(==)>(x: T, s: seq<T>, key: T -> real): (r: seq<T>)
    requires SortedDesc(s, key)
    ensures SortedDesc(r, key)
    ensures multiset(r) == multiset(s) + multiset{x}
    ensures |r| == |s| + 1 && (r[0] == x || (s != [] && r[0] == s[0]))
  {
    if s == [] || key(x) >= key(s[0]) then [x] + s
    else
      var t := Insert(x, s[1..], key);
      assert s == [s[0]] + s[1..];
      assert key(s[0]) >= key(t[0]);
      [s[0]] + t
  }

  /** Stable descending sort: a permutation of `s` whose keys never increase. */
  function SortDesc<T(==)>(s: seq<T>, key: T -> real): (r: seq<T>)
    ensures SortedDesc(r, key)
    ensures multiset(r) == multiset(s)
  {
    if s == [] then []
    else
      assert s == [s[0]] + s[1..];
      Insert(s[0], SortDesc(s[1..], key), key)
  }

  /** Sorting neither adds nor loses an element. */
  lemma SortKeepsMembers<T>(s: seq<T>, key: T -> real)
    ensures forall x :: x in SortDesc(s, key) <==> x in s
  {
    var r := SortDesc(s, key);
    forall x
      ensures x in r <==> x in s
    {
      assert x in r <==> x in multiset(r);
      assert x in s <==> x in multiset(s);
    }
  }

  /** Dropping elements keeps the survivors in the order they had. */
  lemma {:induction false} FilterPreservesSorted<T>(s: seq<T>, p: T -> bool, key: T -> real)
    requires SortedDesc(s, key)
    ensures SortedDesc(Filter(s, p), key)
  {
    if s != [] {
      FilterPreservesSorted(s[1..], p, key);
      var t := Filter(s[1..], p);
      assert forall i | 0 <= i < |t| :: t[i] in s[1..];
    }
  }

  /** A prefix of a sorted sequence is sorted. */
  lemma TakePreservesSorted<T>(s: seq<T>, n: int, key: T -> real)
    requires SortedDesc(s, key)
    ensures SortedDesc(Take(s, n), key)
  {
  }

  /** A prefix holds only elements of the whole. */
  lemma TakeMembers<T>(s: seq<T>, n: int)
    ensures forall x | x in Take(s, n) :: x in s
  {
    var r := Take(s, n);
    forall x | x in r ensures x in s {
      var i :| 0 <= i < |r| && r[i] == x;
      assert s[i] == x;
    }
  }

  /** A prefix holds no element more often than the whole. */
  lemma TakeIsSubMultiset<T>(s: seq<T>, n: int)
    ensures multiset(Take(s, n)) <= multiset(s)
  {
    var r := Take(s, n);
    assert s == r + s[|r|..];
    assert multiset(s) == multiset(r) + multiset(s[|r|..]);
  }

  /**
   * The first `n` elements of a descending sort are a top-n: no element left
   * behind has a larger key than any element kept.
   */
  lemma TakeOfSortedIsTop<T>(s: seq<T>, n: int, key: T -> real)
    ensures var r := Take(SortDesc(s, key), n);
            forall x, y | x in r && y in multiset(s) - multiset(r) :: key(x) >= key(y)
  {
    var sorted := SortDesc(s, key);
    var r := Take(sorted, n);
    var rest := sorted[|r|..];
    assert sorted == r + rest;
    assert multiset(s) == multiset(r) + multiset(rest);
    forall x, y | x in r && y in multiset(s) - multiset(r)
      ensures key(x) >= key(y)
    {
      assert y in multiset(rest);
      var i :| 0 <= i < |r| && r[i] == x;
      var j :| 0 <= j < |rest| && rest[j] == y;
      assert sorted[i] == x && sorted[|r| + j] == y;
    }
  }

  /**
   * The top `n` of the elements `p` admits: no admitted element left behind has
   * a larger key than any element kept.
   */
  lemma TopOfFilter<T>(s: seq<T>, p: T -> bool, n: int, key: T -> real)
    ensures var r := Take(SortDesc(Filter(s, p), key), n);
            forall x, y | x in r && y in s && p(y) && y !in r :: key(y) <= key(x)
  {
    var kept := Filter(s, p);
    var r := Take(SortDesc(kept, key), n);
    TakeOfSortedIsTop(kept, n, key);
    forall x, y | x in r && y in s && p(y) && y !in r
      ensures key(y) <= key(x)
    {
      var i :| 0 <= i < |s| && s[i] == y;
      assert y in kept;
      assert y in multiset(kept) - multiset(r);
    }
  }
}
