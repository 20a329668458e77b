/** Sorting by a comparator and filtering, the two sequence operations the
    pandas calls `sort_values`, `sorted` and boolean-mask `.loc` reduce to. */
module Sequences {

  /** `le` is total and transitive: what `sort_values` needs of its keys. */
  ghost predicate TotalPreorder<T(!new)>(le: (T, T) -> bool)
  {
    && (forall a, b :: le(a, b) || le(b, a))
    && (forall a, b, c :: le(a, b) && le(b, c) ==> le(a, c))
  }

  predicate SortedBy<T>(s: seq<T>, le: (T, T) -> bool)
  {
    forall i, j :: 0 <= i < j < |s| ==> le(s[i], s[j])
  }

  /** No element occurs twice. */
  predicate Distinct<T(==)>(s: seq<T>)
  {
    forall i, j :: 0 <= i < j < |s| ==> s[i] != s[j]
  }

  /** A sequence without repetitions has as many elements as its set. */
  lemma {:induction false} DistinctCardinality<T>(s: seq<T>)
    requires Distinct(s)
    ensures |set x | x in s| == |s|
  {
    if s != [] {
      var rest := s[1..];
      assert Distinct(rest) by {
        forall i, j | 0 <= i < j < |rest| ensures rest[i] != rest[j] {
          assert rest[i] == s[i + 1] && rest[j] == s[j + 1];
        }
      }
      DistinctCardinality(rest);
      assert s[0] !in rest;
      assert (set x | x in s) == {s[0]} + (set x | x in rest) by {
        assert s == [s[0]] + rest;
      }
    }
  }

  /** A sequence without repetitions holds each of its elements once. */
  lemma {:induction false} DistinctCountsOne<T>(s: seq<T>, x: T)
    requires Distinct(s)
    ensures multiset(s)[x] == if x in s then 1 else 0
  {
    if s != [] {
      var rest := s[1..];
      assert s == [s[0]] + rest;
      assert Distinct(rest) by {
        forall i, j | 0 <= i < j < |rest| ensures rest[i] != rest[j] {
          assert rest[i] == s[i + 1] && rest[j] == s[j + 1];
        }
      }
      assert s[0] !in rest;
      DistinctCountsOne(rest, x);
    }
  }

  /** Inserts `x` in front of the first element it is `le` to. */
  function Insert<T>(x: T, s: seq<T>, le: (T, T) -> bool): (r: seq<T>)
    ensures multiset(r) == multiset(s) + multiset{x}
  {
    if s == [] then [x]
    else if le(x, s[0]) then [x] + s
    else
      assert s == [s[0]] + s[1..];
      [s[0]] + Insert(x, s[1..], le)
  }

  /** Inserting into a sorted sequence keeps it sorted. */
  lemma {:induction false} InsertSorted<T(!new)>(x: T, s: seq<T>, le: (T, T) -> bool)
    requires TotalPreorder(le) && SortedBy(s, le)
    ensures SortedBy(Insert(x, s, le), le)
  {
    if s == [] {
    } else if le(x, s[0]) {
      forall j | 0 <= j < |s| ensures le(x, s[j]) {
        if j > 0 { assert le(s[0], s[j]); }
      }
      SortedCons(x, s, le);
    } else {
      var rest := Insert(x, s[1..], le);
      forall k | 0 <= k < |s[1..]| ensures le(s[0], s[1..][k]) {
        assert s[1..][k] == s[k + 1];
      }
      SortedTail(s, le);
      InsertSorted(x, s[1..], le);
      BelowAllOfMultiset(s[0], x, s[1..], rest, le);
      SortedCons(s[0], rest, le);
    }
  }

  lemma SortedTail<T>(s: seq<T>, le: (T, T) -> bool)
    requires s != [] && SortedBy(s, le)
    ensures SortedBy(s[1..], le)
  {
    forall i, j | 0 <= i < j < |s[1..]| ensures le(s[1..][i], s[1..][j]) {
      assert s[1..][i] == s[i + 1] && s[1..][j] == s[j + 1];
    }
  }

  /** Removing equal heads from sequences with one multiset leaves tails
      with one multiset. */
  lemma SameTails<T>(a: seq<T>, b: seq<T>)
    requires a != [] && b != [] && a[0] == b[0] && multiset(a) == multiset(b)
    ensures multiset(a[1..]) == multiset(b[1..])
  {
    assert a == [a[0]] + a[1..] && b == [b[0]] + b[1..];
    calc {
      multiset(a[1..]);
      multiset(a) - multiset{a[0]};
      multiset(b) - multiset{b[0]};
      multiset(b[1..]);
    }
  }

  /** What is `le` above `x` and every element of `tail` is `le` above every
      element of a rearrangement of `tail` plus `x`. */
  lemma BelowAllOfMultiset<T>(y: T, x: T, tail: seq<T>, r: seq<T>, le: (T, T) -> bool)
    requires multiset(r) == multiset(tail) + multiset{x}
    requires le(y, x) && forall k :: 0 <= k < |tail| ==> le(y, tail[k])
    ensures forall j :: 0 <= j < |r| ==> le(y, r[j])
  {
    forall j | 0 <= j < |r| ensures le(y, r[j]) {
      assert r[j] in multiset(r);
      if r[j] != x {
        assert r[j] in multiset(tail);
        var k :| 0 <= k < |tail| && tail[k] == r[j];
      }
    }
  }

  /** A stable insertion sort: the model of `sort_values` and `sorted`. */
  function InsertionSort<T(!new)>(s: seq<T>, le: (T, T) -> bool): (r: seq<T>)
    ensures multiset(r) == multiset(s) && |r| == |s|
    ensures TotalPreorder(le) ==> SortedBy(r, le)
  {
    if s == [] then []
    else
      assert s == [s[0]] + s[1..];
      var t := InsertionSort(s[1..], le);
      assert TotalPreorder(le) ==> SortedBy(Insert(s[0], t, le), le) by {
        if TotalPreorder(le) { InsertSorted(s[0], t, le); }
      }
      Insert(s[0], t, le)
  }

  /** The elements of `s` that satisfy `p`, in their original order. */
  function Filter<T>(s: seq<T>, p: T -> bool): (r: seq<T>)
    ensures |r| <= |s|
    ensures forall i :: 0 <= i < |r| ==> r[i] in s && p(r[i])
    ensures forall i :: 0 <= i < |s| && p(s[i]) ==> s[i] in r
    ensures multiset(r) <= multiset(s)
  {
    if s == [] then []
    else
      assert s == [s[0]] + s[1..];
      if p(s[0]) then [s[0]] + Filter(s[1..], p) else Filter(s[1..], p)
  }

  /** One step of `Filter`: the first element when it passes, then the rest. */
  lemma FilterCons<T>(s: seq<T>, p: T -> bool)
    requires s != []
    ensures Filter(s, p) == (if p(s[0]) then [s[0]] else []) + Filter(s[1..], p)
  {
  }

  /** The concatenation of `f(x)` for every `x` of `s`, in order. */
  function FlatMap<T, U>(s: seq<T>, f: T -> seq<U>): seq<U>
  {
    if s == [] then [] else f(s[0]) + FlatMap(s[1..], f)
  }

  /** Every element of a `FlatMap` is an element of the part of one `x`. */
  lemma {:induction false} FlatMapSource<T, U>(s: seq<T>, f: T -> seq<U>, i: nat) returns (a: nat, k: nat)
    requires i < |FlatMap(s, f)|
    ensures a < |s| && k < |f(s[a])| && FlatMap(s, f)[i] == f(s[a])[k]
  {
    if i < |f(s[0])| {
      a, k := 0, i;
    } else {
      var a', k' := FlatMapSource(s[1..], f, i - |f(s[0])|);
      a, k := a' + 1, k';
      assert s[1..][a'] == s[a];
    }
  }

  /** Every element of the part of one `x` is an element of the `FlatMap`. */
  lemma {:induction false} FlatMapHas<T, U>(s: seq<T>, f: T -> seq<U>, a: nat, y: U)
    requires a < |s| && y in f(s[a])
    ensures y in FlatMap(s, f)
  {
    if a > 0 {
      assert s[1..][a - 1] == s[a];
      FlatMapHas(s[1..], f, a - 1, y);
    }
  }

  /** Two filters in a row are one filter by the conjunction. */
  lemma {:induction false} FilterFilter<T>(s: seq<T>, p: T -> bool, q: T -> bool, both: T -> bool)
    requires forall x :: both(x) == (p(x) && q(x))
    ensures Filter(Filter(s, p), q) == Filter(s, both)
  {
    if s != [] {
      FilterFilter(s[1..], p, q, both);
      if p(s[0]) {
        assert Filter(s, p) == [s[0]] + Filter(s[1..], p);
        assert Filter(s, p)[1..] == Filter(s[1..], p);
      }
    }
  }

  /** Filtering keeps a sorted sequence sorted. */
  lemma {:induction false} FilterSorted<T>(s: seq<T>, p: T -> bool, le: (T, T) -> bool)
    requires SortedBy(s, le)
    ensures SortedBy(Filter(s, p), le)
  {
    if s != [] {
      assert s == [s[0]] + s[1..];
      FilterSorted(s[1..], p, le);
      var rest := Filter(s[1..], p);
      if p(s[0]) {
        forall j | 0 <= j < |rest| ensures le(s[0], rest[j]) {
          assert rest[j] in s[1..];
          var k :| 0 <= k < |s[1..]| && s[1..][k] == rest[j];
          assert le(s[0], s[k + 1]);
        }
        SortedCons(s[0], rest, le);
        assert Filter(s, p) == [s[0]] + rest;
      } else {
        assert Filter(s, p) == rest;
      }
    }
  }

  /** An element `le` to all of a sorted sequence can go in front of it. */
  lemma SortedCons<T>(x: T, s: seq<T>, le: (T, T) -> bool)
    requires SortedBy(s, le)
    requires forall j :: 0 <= j < |s| ==> le(x, s[j])
    ensures SortedBy([x] + s, le)
  {
    forall i, j | 0 <= i < j < |[x] + s| ensures le(([x] + s)[i], ([x] + s)[j]) {
      if i > 0 { assert ([x] + s)[i] == s[i - 1]; }
      assert ([x] + s)[j] == s[j - 1];
    }
  }

  /** Filtering keeps distinct elements distinct. */
  lemma {:induction false} FilterDistinct<T>(s: seq<T>, p: T -> bool)
    requires Distinct(s)
    ensures Distinct(Filter(s, p))
  {
    if s != [] {
      assert s == [s[0]] + s[1..];
      FilterDistinct(s[1..], p);
      assert s[0] !in s[1..];
    }
  }

  /** The first `n` elements, or all of them when there are fewer (`iloc[:n]`). */
  function Take<T>(s: seq<T>, n: nat): (r: seq<T>)
    ensures |r| <= n && |r| <= |s|
    ensures |s| <= n ==> r == s
    ensures r <= s
  {
    if |s| <= n then s else s[..n]
  }

  /** How many times `x` survives a filter depends only on the multiset. */
  lemma {:induction false} FilterCount<T>(s: seq<T>, p: T -> bool, x: T)
    ensures multiset(Filter(s, p))[x] == if p(x) then multiset(s)[x] else 0
  {
    if s != [] {
      assert s == [s[0]] + s[1..];
      FilterCount(s[1..], p, x);
    }
  }

  lemma FilterSameMultiset<T>(s1: seq<T>, s2: seq<T>, p: T -> bool)
    requires multiset(s1) == multiset(s2)
    ensures multiset(Filter(s1, p)) == multiset(Filter(s2, p))
  {
    forall x ensures multiset(Filter(s1, p))[x] == multiset(Filter(s2, p))[x] {
      FilterCount(s1, p, x);
      FilterCount(s2, p, x);
    }
  }

  /** Prepending keeps a sequence distinct exactly when the new element is new. */
  lemma DistinctCons<T>(x: T, s: seq<T>)
    ensures Distinct([x] + s) <==> x !in s && Distinct(s)
  {
    if x in s {
      var j :| 0 <= j < |s| && s[j] == x;
      assert ([x] + s)[0] == ([x] + s)[j + 1];
    }
    if x !in s && Distinct(s) {
      forall i, j | 0 <= i < j < |[x] + s| ensures ([x] + s)[i] != ([x] + s)[j] {
        if i > 0 { assert ([x] + s)[i] == s[i - 1]; }
        assert ([x] + s)[j] == s[j - 1];
      }
    }
    if Distinct([x] + s) {
      forall i, j | 0 <= i < j < |s| ensures s[i] != s[j] {
        assert s[i] == ([x] + s)[i + 1] && s[j] == ([x] + s)[j + 1];
      }
    }
  }
}
