/**
  Sequences standing in for querysets: `filter` keeps the rows a condition
  accepts, `order_by` sorts them by a total preorder, `distinct` is the absence
  of repeated rows.
*/
module Seqs {

  /** The elements of `s` that satisfy `p`, in their original order. */
  function Where<T(!new)>(s: seq<T>, p: T -> bool): (r: seq<T>)
    ensures |r| <= |s|
    ensures forall x :: multiset(r)[x] == if p(x) then multiset(s)[x] else 0
    ensures forall x :: x in r <==> x in s && p(x)
    ensures forall i :: 0 <= i < |r| ==> p(r[i])
  {
    if s == [] then []
    else
      var rest := Where(s[1..], p);
      assert s == [s[0]] + s[1..];
      if p(s[0]) then [s[0]] + rest else rest
  }

  /** Filtering keeps the order: whatever order `s` is in, the kept elements are in it too. */
  lemma {:induction false} WhereOrdered<T(!new)>(s: seq<T>, p: T -> bool, leq: (T, T) -> bool)
    requires Ordered(s, leq)
    ensures Ordered(Where(s, p), leq)
  {
    if s != [] {
      OrderedTail(s, leq);
      WhereOrdered(s[1..], p, leq);
      var rest := Where(s[1..], p);
      if p(s[0]) {
        assert Where(s, p) == [s[0]] + rest;
        forall x | x in rest ensures leq(s[0], x) {
          OrderedHeadFirst(s, leq, x);
        }
        OrderedCons(s[0], rest, leq);
      } else {
        assert Where(s, p) == rest;
      }
    }
  }

  /** The tail of an ordered sequence is ordered. */
  lemma OrderedTail<T>(s: seq<T>, leq: (T, T) -> bool)
    requires s != [] && Ordered(s, leq)
    ensures Ordered(s[1..], leq)
  {
    var tail := s[1..];
    forall i, j | 0 <= i < j < |tail| ensures leq(tail[i], tail[j]) {
      assert tail[i] == s[i + 1] && tail[j] == s[j + 1];
    }
  }

  /** In an ordered sequence the head is `leq` every element of the tail. */
  lemma OrderedHeadFirst<T>(s: seq<T>, leq: (T, T) -> bool, x: T)
    requires s != [] && Ordered(s, leq) && x in s[1..]
    ensures leq(s[0], x)
  {
    var k :| 0 <= k < |s[1..]| && s[1..][k] == x;
    assert s[k + 1] == x;
  }

  /** Putting `y` in front of an ordered sequence it is `leq` throughout keeps it ordered. */
  lemma OrderedCons<T>(y: T, s: seq<T>, leq: (T, T) -> bool)
    requires Ordered(s, leq) && forall x :: x in s ==> leq(y, x)
    ensures Ordered([y] + s, leq)
  {
    var r := [y] + s;
    forall i, j | 0 <= i < j < |r| ensures leq(r[i], r[j]) {
      assert r[j] == s[j - 1];
      if i > 0 { assert r[i] == s[i - 1]; }
    }
  }

  ghost predicate Total<T(!new)>(leq: (T, T) -> bool) {
    forall a, b :: leq(a, b) || leq(b, a)
  }

  ghost predicate Transitive<T(!new)>(leq: (T, T) -> bool) {
    forall a, b, c :: leq(a, b) && leq(b, c) ==> leq(a, c)
  }

  /** Every element is `leq` its successor. */
  predicate Chained<T>(s: seq<T>, leq: (T, T) -> bool) {
    forall i :: 0 <= i < |s| - 1 ==> leq(s[i], s[i + 1])
  }

  /** Every element is `leq` every later element. */
  ghost predicate Ordered<T>(s: seq<T>, leq: (T, T) -> bool) {
    forall i, j :: 0 <= i < j < |s| ==> leq(s[i], s[j])
  }

  /** Inserts `x` before the first element it is `leq`. */
  function InsertBy<T(!new)>(x: T, s: seq<T>, leq: (T, T) -> bool): (r: seq<T>)
    ensures multiset(r) == multiset(s) + multiset{x}
    ensures |r| == |s| + 1
    ensures r[0] == x || (s != [] && r[0] == s[0])
    ensures Total(leq) && Chained(s, leq) ==> Chained(r, leq)
  {
    if s == [] || leq(x, s[0]) then [x] + s
    else
      var rest := InsertBy(x, s[1..], leq);
      assert s == [s[0]] + s[1..];
      assert Total(leq) && Chained(s, leq) ==> Chained([s[0]] + rest, leq) by {
        if Total(leq) && Chained(s, leq) {
          assert leq(s[0], x);
          assert Chained(s[1..], leq);
          ChainedCons(s[0], rest, leq);
        }
      }
      [s[0]] + rest
  }

  /** Putting `y` in front of a chained sequence whose head it is `leq` keeps it chained. */
  lemma ChainedCons<T>(y: T, s: seq<T>, leq: (T, T) -> bool)
    requires Chained(s, leq) && (s != [] ==> leq(y, s[0]))
    ensures Chained([y] + s, leq)
  {
    var r := [y] + s;
    forall i | 0 <= i < |r| - 1 ensures leq(r[i], r[i + 1]) {
      if i > 0 { assert r[i] == s[i - 1] && r[i + 1] == s[i]; }
    }
  }

  /** Insertion sort: a permutation of `s`, chained under `leq` when `leq` is total. */
  function SortBy<T(!new)>(s: seq<T>, leq: (T, T) -> bool): (r: seq<T>)
    ensures multiset(r) == multiset(s)
    ensures |r| == |s|
    ensures Total(leq) ==> Chained(r, leq)
  {
    if s == [] then []
    else
      assert s == [s[0]] + s[1..];
      InsertBy(s[0], SortBy(s[1..], leq), leq)
  }

  /** Under a transitive relation, a chained sequence is ordered. */
  lemma {:induction false} ChainedOrdered<T(!new)>(s: seq<T>, leq: (T, T) -> bool)
    requires Transitive(leq) && Chained(s, leq)
    ensures Ordered(s, leq)
  {
    if |s| > 1 {
      ChainedOrdered(s[1..], leq);
      forall j | 1 <= j < |s| ensures leq(s[0], s[j]) {
        if j > 1 {
          assert leq(s[1], s[j]) by { assert s[1..][0] == s[1] && s[1..][j - 1] == s[j]; }
        }
      }
      forall i, j | 0 <= i < j < |s| ensures leq(s[i], s[j]) {
        if i > 0 { assert s[1..][i - 1] == s[i] && s[1..][j - 1] == s[j]; }
      }
    }
  }

  /** No element occurs twice. */
  predicate NoDup<T(==)>(s: seq<T>) {
    forall i, j :: 0 <= i < j < |s| ==> s[i] != s[j]
  }

  /** Having no repeated element is having every multiplicity at most one. */
  lemma {:induction false} NoDupMultiplicity<T(!new)>(s: seq<T>)
    ensures NoDup(s) <==> forall x :: multiset(s)[x] <= 1
  {
    if s != [] {
      NoDupMultiplicity(s[1..]);
      assert s == [s[0]] + s[1..];
      if NoDup(s) {
        assert NoDup(s[1..]) by {
          forall i, j | 0 <= i < j < |s[1..]| ensures s[1..][i] != s[1..][j] {
            assert s[1..][i] == s[i + 1] && s[1..][j] == s[j + 1];
          }
        }
        assert s[0] !in s[1..] by {
          forall k | 0 <= k < |s[1..]| ensures s[1..][k] != s[0] {
            assert s[1..][k] == s[k + 1];
          }
        }
      }
      if forall x :: multiset(s)[x] <= 1 {
        assert forall x :: multiset(s[1..])[x] <= multiset(s)[x];
        assert s[0] !in s[1..] by {
          assert multiset(s)[s[0]] == 1 + multiset(s[1..])[s[0]];
        }
        forall i, j | 0 <= i < j < |s| ensures s[i] != s[j] {
          if i == 0 {
            assert s[j] == s[1..][j - 1];
          } else {
            assert s[i] == s[1..][i - 1] && s[j] == s[1..][j - 1];
          }
        }
      }
    }
  }

  /** Taking part of a sequence without repeats gives a sequence without repeats. */
  lemma SubMultisetNoDup<T(!new)>(r: seq<T>, s: seq<T>)
    requires multiset(r) <= multiset(s) && NoDup(s)
    ensures NoDup(r)
  {
    NoDupMultiplicity(s);
    NoDupMultiplicity(r);
    assert forall x :: multiset(r)[x] <= multiset(s)[x];
  }
}
