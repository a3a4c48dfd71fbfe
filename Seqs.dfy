/** Sequence operations that the views build on: JavaScript's
    `Array.prototype.filter`, and its stable `Array.prototype.sort` with a
    comparator of the form `key(a) - key(b)`. */
module Seqs {

  /** `r` can be obtained from `s` by deleting elements; order is kept. */
  predicate IsSubsequence<T(==)>(r: seq<T>, s: seq<T>)
    decreases |s|
  {
    if r == [] then true
    else if s == [] then false
    else (r[0] == s[0] && IsSubsequence(r[1..], s[1..])) || IsSubsequence(r, s[1..])
  }

  /** Every element of a subsequence is an element of the whole. */
  lemma {:induction false} SubsequenceMembers<T(!new)>(r: seq<T>, s: seq<T>)
    requires IsSubsequence(r, s)
    ensures forall x :: x in r ==> x in s
    decreases |s|
  {
    if r != [] {
      if r[0] == s[0] && IsSubsequence(r[1..], s[1..]) {
        SubsequenceMembers(r[1..], s[1..]);
        assert r == [r[0]] + r[1..];
      } else {
        SubsequenceMembers(r, s[1..]);
      }
    }
  }

  /** `s.filter(p)`: the elements of `s` satisfying `p`, in their original order. */
  function Filter<T(==,!new)>(s: seq<T>, p: T -> bool): (r: seq<T>)
    ensures |r| <= |s|
    ensures forall i :: 0 <= i < |r| ==> p(r[i])
    ensures forall x :: x in r <==> x in s && p(x)
    ensures forall x :: multiset(r)[x] == if p(x) then multiset(s)[x] else 0
    ensures IsSubsequence(r, s)
  {
    if s == [] then []
    else
      assert s == [s[0]] + s[1..];
      if p(s[0]) then [s[0]] + Filter(s[1..], p) else Filter(s[1..], p)
  }

  /** Filtering with a predicate every element satisfies changes nothing. */
  lemma {:induction false} FilterAllPass<T(!new)>(s: seq<T>, p: T -> bool)
    requires forall i :: 0 <= i < |s| ==> p(s[i])
    ensures Filter(s, p) == s
  {
    if s != [] {
      FilterAllPass(s[1..], p);
      assert s == [s[0]] + s[1..];
    }
  }

  /** Filtering with a predicate no element satisfies yields nothing. */
  lemma FilterNonePass<T(!new)>(s: seq<T>, p: T -> bool)
    requires forall i :: 0 <= i < |s| ==> !p(s[i])
    ensures Filter(s, p) == []
  {
  }

  /** Two predicates that agree on every element give the same filter. */
  lemma {:induction false} FilterCongruent<T(!new)>(s: seq<T>, p: T -> bool, q: T -> bool)
    requires forall i :: 0 <= i < |s| ==> p(s[i]) == q(s[i])
    ensures Filter(s, p) == Filter(s, q)
  {
    if s != [] {
      FilterCongruent(s[1..], p, q);
    }
  }

  /** Filtering by a predicate and by its negation splits the sequence:
      the two parts add up to the whole. */
  lemma {:induction false} FilterComplement<T(!new)>(s: seq<T>, p: T -> bool, q: T -> bool)
    requires forall i :: 0 <= i < |s| ==> q(s[i]) == !p(s[i])
    ensures |Filter(s, p)| + |Filter(s, q)| == |s|
  {
    if s != [] {
      FilterComplement(s[1..], p, q);
    }
  }

  /** A permutation has the same elements. */
  lemma PermutationMembers<T>(r: seq<T>, s: seq<T>)
    requires multiset(r) == multiset(s)
    ensures forall x :: x in r <==> x in s
  {
    forall x
      ensures x in r <==> x in s
    {
      assert x in r <==> x in multiset(r);
    }
  }

  /** `key` is non-decreasing along `s`. */
  predicate SortedBy<T>(s: seq<T>, key: T -> int)
  {
    forall i, j :: 0 <= i < j < |s| ==> key(s[i]) <= key(s[j])
  }

  /** The elements of `s` whose key is `k`, in order. A sort is stable exactly
      when it keeps every such class unchanged. */
  function KeyClass<T(==,!new)>(s: seq<T>, key: T -> int, k: int): seq<T>
  {
    Filter(s, x => key(x) == k)
  }

  /** A key class is any filter whose test picks exactly the elements with
      that key. */
  lemma {:induction false} KeyClassAsFilter<T(!new)>(s: seq<T>, key: T -> int, k: int, q: T -> bool)
    requires forall i :: 0 <= i < |s| ==> q(s[i]) == (key(s[i]) == k)
    ensures Filter(s, q) == KeyClass(s, key, k)
  {
    if s != [] {
      KeyClassAsFilter(s[1..], key, k, q);
    }
  }

  /** Places `x` in front of the first element whose key is not smaller. */
  function Insert<T(==,!new)>(x: T, s: seq<T>, key: T -> int): (r: seq<T>)
    ensures |r| == |s| + 1
    ensures multiset(r) == multiset(s) + multiset{x}
  {
    if s == [] || key(x) <= key(s[0]) then
      [x] + s
    else
      assert s == [s[0]] + s[1..];
      [s[0]] + Insert(x, s[1..], key)
  }

  /** A head whose key is at most every key of a sorted tail keeps the
      list sorted. */
  lemma SortedCons<T>(h: T, t: seq<T>, key: T -> int)
    requires SortedBy(t, key)
    requires forall i :: 0 <= i < |t| ==> key(h) <= key(t[i])
    ensures SortedBy([h] + t, key)
  {
    var r := [h] + t;
    forall i, j | 0 <= i < j < |r|
      ensures key(r[i]) <= key(r[j])
    {
      assert r[j] == t[j - 1];
      if i > 0 {
        assert r[i] == t[i - 1];
      }
    }
  }

  lemma {:induction false} InsertSorted<T(!new)>(x: T, s: seq<T>, key: T -> int)
    requires SortedBy(s, key)
    ensures SortedBy(Insert(x, s, key), key)
  {
    if s == [] || key(x) <= key(s[0]) {
      SortedCons(x, s, key);
    } else {
      var tail := s[1..];
      var rest := Insert(x, tail, key);
      InsertSorted(x, tail, key);
      forall i | 0 <= i < |rest|
        ensures key(s[0]) <= key(rest[i])
      {
        var y := rest[i];
        assert y in multiset(rest);
        if y != x {
          assert y in multiset(tail);
          var m :| 0 <= m < |tail| && tail[m] == y;
          assert s[1 + m] == y;
        }
      }
      SortedCons(s[0], rest, key);
    }
  }

  /** The key class of a list with a given head. */
  lemma KeyClassCons<T(!new)>(x: T, s: seq<T>, key: T -> int, k: int)
    ensures KeyClass([x] + s, key, k) ==
            if key(x) == k then [x] + KeyClass(s, key, k) else KeyClass(s, key, k)
  {
    var r := [x] + s;
    assert r[0] == x && r[1..] == s;
  }

  /** Everything in front of the inserted element has a smaller key, so the
      class of `x`'s key gains `x` in first position and no class is reordered. */
  lemma {:induction false} InsertKeyClass<T(!new)>(x: T, s: seq<T>, key: T -> int, k: int)
    ensures KeyClass(Insert(x, s, key), key, k) ==
            if key(x) == k then [x] + KeyClass(s, key, k) else KeyClass(s, key, k)
  {
    if s == [] || key(x) <= key(s[0]) {
      KeyClassCons(x, s, key, k);
    } else {
      assert s == [s[0]] + s[1..];
      InsertKeyClass(x, s[1..], key, k);
      KeyClassCons(s[0], Insert(x, s[1..], key), key, k);
      KeyClassCons(s[0], s[1..], key, k);
    }
  }

  /** The stable sort: a permutation of `s`, ordered by `key`, in which
      elements with equal keys keep their relative order from `s`. */
  function SortBy<T(==,!new)>(s: seq<T>, key: T -> int): (r: seq<T>)
    ensures |r| == |s|
    ensures multiset(r) == multiset(s)
    ensures SortedBy(r, key)
    ensures forall k :: KeyClass(r, key, k) == KeyClass(s, key, k)
  {
    if s == [] then []
    else
      assert s == [s[0]] + s[1..];
      var sorted := SortBy(s[1..], key);
      InsertSorted(s[0], sorted, key);
      SortByKeyClasses(s, sorted, key);
      Insert(s[0], sorted, key)
  }

  lemma SortByKeyClasses<T(!new)>(s: seq<T>, sorted: seq<T>, key: T -> int)
    requires s != []
    requires forall k :: KeyClass(sorted, key, k) == KeyClass(s[1..], key, k)
    ensures forall k :: KeyClass(Insert(s[0], sorted, key), key, k) == KeyClass(s, key, k)
  {
    forall k
      ensures KeyClass(Insert(s[0], sorted, key), key, k) == KeyClass(s, key, k)
    {
      InsertKeyClass(s[0], sorted, key, k);
    }
  }
}
