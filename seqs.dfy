/**
  The list operations the services build on: a stream `filter`, and the
  stable sort of `Collections.sort` / `Stream.sorted` under a comparator that
  compares one integer key (`Comparator.comparing(f)`; a `.reversed()`
  comparator is the same sort on the negated key).
 */
module Seqs {
  import opened Entities

  /**
    The position of the first element satisfying `p`, if any: a repository
    `findBy...` lookup over the rows in storage order.
   */
  function FirstIndex<T>(s: seq<T>, p: T -> bool): (r: Option<nat>)
    ensures r.Some? ==> r.value < |s| && p(s[r.value])
    ensures r.Some? ==> forall k :: 0 <= k < r.value ==> !p(s[k])
    ensures r.None? ==> forall k :: 0 <= k < |s| ==> !p(s[k])
  {
    if s == [] then None
    else if p(s[0]) then Some(0)
    else match FirstIndex(s[1..], p)
      case None => None
      case Some(k) => Some(k + 1)
  }

  /** `stream().filter(p).collect(toList())`: the elements satisfying `p`, in their order. */
  function Filter<T>(s: seq<T>, p: T -> bool): (r: seq<T>)
    ensures |r| <= |s|
  {
    if s == [] then [] else (if p(s[0]) then [s[0]] else []) + Filter(s[1..], p)
  }

  /** The filtered sequence is drawn from `s`, and every element of it satisfies `p`. */
  lemma {:induction false} FilterSubMultiset<T>(s: seq<T>, p: T -> bool)
    ensures multiset(Filter(s, p)) <= multiset(s)
    ensures forall k :: 0 <= k < |Filter(s, p)| ==> p(Filter(s, p)[k])
  {
    if s != [] {
      FilterSubMultiset(s[1..], p);
      assert s == [s[0]] + s[1..];
    }
  }

  /** The filtered sequence holds exactly the elements of `s` that satisfy `p`. */
  lemma {:induction false} FilterMembers<T>(s: seq<T>, p: T -> bool, x: T)
    ensures x in Filter(s, p) <==> x in s && p(x)
  {
    if s != [] {
      FilterMembers(s[1..], p, x);
      assert x in s <==> x == s[0] || x in s[1..];
    }
  }

  /** Filtering keeps every occurrence of a selected element and drops every other one. */
  lemma {:induction false} FilterCount<T>(s: seq<T>, p: T -> bool, x: T)
    ensures multiset(Filter(s, p))[x] == if p(x) then multiset(s)[x] else 0
  {
    if s != [] {
      FilterCount(s[1..], p, x);
      assert s == [s[0]] + s[1..];
    }
  }

  /** Filtering twice is filtering once by both predicates. */
  lemma {:induction false} FilterFilter<T>(s: seq<T>, p: T -> bool, q: T -> bool, both: T -> bool)
    requires forall x :: both(x) == (p(x) && q(x))
    ensures Filter(Filter(s, p), q) == Filter(s, both)
  {
    if s != [] {
      FilterFilter(s[1..], p, q, both);
      var once, rest := Filter(s, p), Filter(s[1..], p);
      if p(s[0]) {
        assert once == [s[0]] + rest;
        assert once[0] == s[0] && once[1..] == rest;
        assert Filter(once, q) == (if q(s[0]) then [s[0]] else []) + Filter(rest, q);
      } else {
        assert once == rest;
      }
      assert Filter(s, both) == (if both(s[0]) then [s[0]] else []) + Filter(s[1..], both);
    }
  }

  /** Filtering with a predicate that holds throughout keeps the sequence. */
  lemma {:induction false} FilterAll<T>(s: seq<T>, p: T -> bool)
    requires forall i :: 0 <= i < |s| ==> p(s[i])
    ensures Filter(s, p) == s
  {
    if s != [] {
      FilterAll(s[1..], p);
    }
  }

  /** Filtering with a predicate that holds nowhere gives the empty sequence. */
  lemma {:induction false} FilterNone<T>(s: seq<T>, p: T -> bool)
    requires forall k :: 0 <= k < |s| ==> !p(s[k])
    ensures Filter(s, p) == []
  {
    if s != [] {
      FilterNone(s[1..], p);
    }
  }

  /** Filtering with a predicate that holds at one position only keeps that element alone. */
  lemma {:induction false} FilterSingle<T>(s: seq<T>, p: T -> bool, i: int)
    requires 0 <= i < |s| && p(s[i])
    requires forall k :: 0 <= k < |s| && k != i ==> !p(s[k])
    ensures Filter(s, p) == [s[i]]
  {
    if i == 0 {
      FilterNone(s[1..], p);
    } else {
      FilterSingle(s[1..], p, i - 1);
    }
  }

  /** The keys are non-decreasing along `s`. */
  predicate SortedByKey<T>(s: seq<T>, key: T -> int)
  {
    forall i, j :: 0 <= i < j < |s| ==> key(s[i]) <= key(s[j])
  }

  /** Filtering keeps the relative order, so a sorted sequence stays sorted. */
  lemma {:induction false} FilterKeepsSorted<T>(s: seq<T>, p: T -> bool, key: T -> int)
    requires SortedByKey(s, key)
    ensures SortedByKey(Filter(s, p), key)
  {
    if s != [] {
      FilterKeepsSorted(s[1..], p, key);
      var rest := Filter(s[1..], p);
      forall j | 0 <= j < |rest|
        ensures key(s[0]) <= key(rest[j])
      {
        FilterMembers(s[1..], p, rest[j]);
        var k :| 0 <= k < |s[1..]| && s[1..][k] == rest[j];
        assert s[k + 1] == rest[j];
      }
    }
  }

  /**
    Inserts `x` behind the sorted `s`, after every element whose key is not
    greater than its own: the step of a stable insertion sort.
   */
  function Insert<T>(s: seq<T>, x: T, key: T -> int): (r: seq<T>)
    ensures |r| == |s| + 1
  {
    if s == [] || key(s[|s| - 1]) <= key(x) then s + [x]
    else Insert(s[..|s| - 1], x, key) + [s[|s| - 1]]
  }

  lemma {:induction false} InsertPermutes<T>(s: seq<T>, x: T, key: T -> int)
    ensures multiset(Insert(s, x, key)) == multiset(s) + multiset{x}
  {
    if s != [] && key(s[|s| - 1]) > key(x) {
      var init := s[..|s| - 1];
      InsertPermutes(init, x, key);
      assert s == init + [s[|s| - 1]];
    }
  }

  lemma {:induction false} InsertKeepsSorted<T>(s: seq<T>, x: T, key: T -> int)
    requires SortedByKey(s, key)
    ensures SortedByKey(Insert(s, x, key), key)
  {
    if s != [] && key(s[|s| - 1]) > key(x) {
      var init, last := s[..|s| - 1], s[|s| - 1];
      assert SortedByKey(init, key) by {
        forall i, j | 0 <= i < j < |init|
          ensures key(init[i]) <= key(init[j])
        {
          assert init[i] == s[i] && init[j] == s[j];
        }
      }
      InsertKeepsSorted(init, x, key);
      InsertPermutes(init, x, key);
      var front := Insert(init, x, key);
      forall y | y in front
        ensures key(y) <= key(last)
      {
        assert y in multiset(init) + multiset{x};
        if y != x {
          assert y in init;
        }
      }
      assert Insert(s, x, key) == front + [last];
    }
  }

  /** The stable sort by ascending key. */
  function SortByKey<T>(s: seq<T>, key: T -> int): (r: seq<T>)
    ensures |r| == |s|
  {
    if s == [] then [] else Insert(SortByKey(s[..|s| - 1], key), s[|s| - 1], key)
  }

  /** Sorting neither loses nor duplicates an element. */
  lemma {:induction false} SortPermutes<T>(s: seq<T>, key: T -> int)
    ensures multiset(SortByKey(s, key)) == multiset(s)
  {
    if s != [] {
      var init := s[..|s| - 1];
      SortPermutes(init, key);
      InsertPermutes(SortByKey(init, key), s[|s| - 1], key);
      assert s == init + [s[|s| - 1]];
    }
  }

  /** The sorted sequence is in key order. */
  lemma {:induction false} SortIsSorted<T>(s: seq<T>, key: T -> int)
    ensures SortedByKey(SortByKey(s, key), key)
  {
    if s != [] {
      SortIsSorted(s[..|s| - 1], key);
      InsertKeepsSorted(SortByKey(s[..|s| - 1], key), s[|s| - 1], key);
    }
  }

  /** Sorting a sequence that is already in key order changes nothing. */
  lemma {:induction false} SortSorted<T>(s: seq<T>, key: T -> int)
    requires SortedByKey(s, key)
    ensures SortByKey(s, key) == s
  {
    if s != [] {
      var init, last := s[..|s| - 1], s[|s| - 1];
      assert SortedByKey(init, key) by {
        forall i, j | 0 <= i < j < |init|
          ensures key(init[i]) <= key(init[j])
        {
          assert init[i] == s[i] && init[j] == s[j];
        }
      }
      SortSorted(init, key);
      if |init| > 0 {
        assert key(init[|init| - 1]) <= key(last) by {
          assert init[|init| - 1] == s[|s| - 2];
        }
      }
      assert Insert(init, last, key) == init + [last];
      assert init + [last] == s;
    }
  }

  /** Filtering a sequence with a given first element. */
  lemma FilterCons<T>(x: T, rest: seq<T>, p: T -> bool)
    ensures Filter([x] + rest, p) == (if p(x) then [x] else []) + Filter(rest, p)
  {
    var s := [x] + rest;
    assert s[0] == x && s[1..] == rest;
  }

  /** Filtering a concatenation filters each part. */
  lemma {:induction false} FilterAppend<T>(a: seq<T>, b: seq<T>, p: T -> bool)
    ensures Filter(a + b, p) == Filter(a, p) + Filter(b, p)
  {
    if a == [] {
      assert a + b == b;
    } else {
      FilterAppend(a[1..], b, p);
      assert a == [a[0]] + a[1..];
      assert a + b == [a[0]] + (a[1..] + b);
      FilterCons(a[0], a[1..], p);
      FilterCons(a[0], a[1..] + b, p);
    }
  }

  /** The elements whose key is `k`. */
  function KeyIs<T>(key: T -> int, k: int): T -> bool
  {
    (x: T) => key(x) == k
  }

  /**
    Inserting `x` keeps the order among the elements of any one key: `x` only
    moves past elements of a greater key than its own.
   */
  lemma {:induction false} InsertKeepsTies<T>(s: seq<T>, x: T, key: T -> int, k: int)
    ensures Filter(Insert(s, x, key), KeyIs(key, k)) == Filter(s, KeyIs(key, k)) + Filter([x], KeyIs(key, k))
  {
    var p := KeyIs(key, k);
    if s == [] || key(s[|s| - 1]) <= key(x) {
      FilterAppend(s, [x], p);
    } else {
      var init, last := s[..|s| - 1], s[|s| - 1];
      InsertKeepsTies(init, x, key, k);
      FilterAppend(Insert(init, x, key), [last], p);
      FilterAppend(init, [last], p);
      assert s == init + [last];
      assert Filter([x], p) + Filter([last], p) == Filter([last], p) + Filter([x], p) by {
        if key(x) == k {
          assert Filter([last], p) == [];
        } else {
          assert Filter([x], p) == [];
        }
      }
    }
  }

  /**
    The sort is stable: the elements of any one key come out in the order in
    which they went in.
   */
  lemma {:induction false} SortStable<T>(s: seq<T>, key: T -> int, k: int)
    ensures Filter(SortByKey(s, key), KeyIs(key, k)) == Filter(s, KeyIs(key, k))
  {
    if s != [] {
      var init, last := s[..|s| - 1], s[|s| - 1];
      SortStable(init, key, k);
      InsertKeepsTies(SortByKey(init, key), last, key, k);
      FilterAppend(init, [last], KeyIs(key, k));
      assert s == init + [last];
    }
  }

  /**
    Where `Insert` puts `x`: behind the first `j` elements when every later
    element has a greater key and the element before position `j` does not.
   */
  lemma {:induction false} InsertAt<T>(s: seq<T>, x: T, key: T -> int, j: int)
    requires 0 <= j <= |s|
    requires j == 0 || key(s[j - 1]) <= key(x)
    requires forall k :: j <= k < |s| ==> key(s[k]) > key(x)
    ensures Insert(s, x, key) == s[..j] + [x] + s[j..]
  {
    if j == |s| {
      assert s[..j] == s;
    } else {
      var init := s[..|s| - 1];
      assert init[..j] == s[..j];
      InsertAt(init, x, key, j);
      assert s[j..] == init[j..] + [s[|s| - 1]];
    }
  }

  /**
    One step of the in-place insertion sort: the element at `i` moves left
    past the elements of greater key, which shift one place right.
   */
  method InsertInPlace<T>(a: array<T>, i: int, key: T -> int)
    requires 0 <= i < a.Length
    modifies a
    ensures a[..i + 1] == Insert(old(a[..i]), old(a[i]), key)
    ensures a[i + 1..] == old(a[i + 1..])
  {
    var x := a[i];
    ghost var sorted := a[..i];
    var j := i;
    while j > 0 && key(a[j - 1]) > key(x)
      invariant 0 <= j <= i
      invariant forall k :: 0 <= k < j ==> a[k] == sorted[k]
      invariant forall k :: j < k <= i ==> a[k] == sorted[k - 1]
      invariant forall k :: i < k < a.Length ==> a[k] == old(a[k])
      invariant forall k :: j <= k < i ==> key(sorted[k]) > key(x)
    {
      a[j] := a[j - 1];
      j := j - 1;
    }
    a[j] := x;
    InsertAt(sorted, x, key, j);
    assert a[..i + 1] == sorted[..j] + [x] + sorted[j..];
  }

  /**
    `Collections.sort(list, comparator)`: sorts the array in place; the result
    is the stable sort of its previous contents.
   */
  method SortInPlace<T>(a: array<T>, key: T -> int)
    modifies a
    ensures a[..] == SortByKey(old(a[..]), key)
  {
    ghost var input := a[..];
    var i := 0;
    while i < a.Length
      invariant 0 <= i <= a.Length
      invariant a[..i] == SortByKey(input[..i], key)
      invariant a[i..] == input[i..]
    {
      assert input[..i + 1][..i] == input[..i];
      assert input[..i + 1][i] == input[i] == a[i];
      InsertInPlace(a, i, key);
      i := i + 1;
    }
    assert input[..a.Length] == input;
  }
}
