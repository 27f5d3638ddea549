/** `order_by('name')`: a sort of query results by a string key, as an insertion sort on sequences. */
module Sorting {
  import opened Strings

  predicate SortedBy<T>(s: seq<T>, key: T -> string)
  {
    forall i, j :: 0 <= i < j < |s| ==> LessEq(key(s[i]), key(s[j]))
  }

  function Insert<T>(x: T, s: seq<T>, key: T -> string): (r: seq<T>)
    requires SortedBy(s, key)
    ensures SortedBy(r, key)
    ensures multiset(r) == multiset(s) + multiset{x}
    decreases |s|
  {
    if |s| == 0 then [x]
    else if LessEq(key(x), key(s[0])) then
      InsertFrontSorted(x, s, key);
      [x] + s
    else
      LessEqTotal(key(x), key(s[0]));
      var rest := Insert(x, s[1..], key);
      InsertBehindSorted(s, x, rest, key);
      assert s == [s[0]] + s[1..];
      [s[0]] + rest
  }

  lemma InsertFrontSorted<T>(x: T, s: seq<T>, key: T -> string)
    requires SortedBy(s, key) && |s| > 0 && LessEq(key(x), key(s[0]))
    ensures SortedBy([x] + s, key)
  {
    var r := [x] + s;
    forall i, j | 0 <= i < j < |r|
      ensures LessEq(key(r[i]), key(r[j]))
    {
      if i == 0 {
        if j > 1 {
          LessEqTransitive(key(x), key(s[0]), key(s[j - 1]));
        }
      } else {
        assert r[i] == s[i - 1] && r[j] == s[j - 1];
      }
    }
  }

  lemma InsertBehindSorted<T>(s: seq<T>, x: T, rest: seq<T>, key: T -> string)
    requires SortedBy(s, key) && |s| > 0 && LessEq(key(s[0]), key(x))
    requires SortedBy(rest, key) && multiset(rest) == multiset(s[1..]) + multiset{x}
    ensures SortedBy([s[0]] + rest, key)
  {
    var r := [s[0]] + rest;
    forall j | 0 < j < |r|
      ensures LessEq(key(s[0]), key(r[j]))
    {
      assert r[j] == rest[j - 1];
      assert r[j] in multiset(rest);
      if r[j] != x {
        assert r[j] in multiset(s[1..]);
        var k :| 0 <= k < |s[1..]| && s[1..][k] == r[j];
        assert s[k + 1] == r[j];
      }
    }
    forall i, j | 0 <= i < j < |r|
      ensures LessEq(key(r[i]), key(r[j]))
    {
      if i > 0 {
        assert r[i] == rest[i - 1] && r[j] == rest[j - 1];
      }
    }
  }

  /** The sorted permutation of `s`. */
  function SortBy<T>(s: seq<T>, key: T -> string): (r: seq<T>)
    ensures SortedBy(r, key)
    ensures multiset(r) == multiset(s)
    decreases |s|
  {
    if |s| == 0 then []
    else
      assert s == [s[0]] + s[1..];
      Insert(s[0], SortBy(s[1..], key), key)
  }

  /** No two elements share a key. */
  predicate DistinctBy<T, K(==)>(s: seq<T>, key: T -> K)
  {
    forall i, j :: 0 <= i < j < |s| ==> key(s[i]) != key(s[j])
  }

  /** Elements with distinct keys are distinct: each occurs at most once. */
  lemma {:induction false} DistinctByOnce<T, K>(a: seq<T>, key: T -> K, x: T)
    requires DistinctBy(a, key)
    ensures multiset(a)[x] <= 1
    decreases |a|
  {
    if |a| > 0 {
      var tail := a[1..];
      assert a == [a[0]] + tail;
      assert DistinctBy(tail, key) by {
        forall i, j | 0 <= i < j < |tail|
          ensures key(tail[i]) != key(tail[j])
        {
          assert tail[i] == a[i + 1] && tail[j] == a[j + 1];
        }
      }
      DistinctByOnce(tail, key, x);
      if a[0] == x {
        forall k | 0 <= k < |tail|
          ensures tail[k] != x
        {
          assert key(a[0]) != key(a[k + 1]);
        }
        assert x !in tail;
      }
    }
  }

  lemma TwoPositions<T>(b: seq<T>, i: nat, j: nat)
    requires i < j < |b| && b[i] == b[j]
    ensures multiset(b)[b[j]] >= 2
  {
    assert b == b[..j] + [b[j]] + b[j + 1..];
    assert b[..j][i] == b[j];
  }

  /** A permutation of a sequence with distinct keys has distinct keys, and draws its elements from it. */
  lemma PermutationKeepsDistinctBy<T, K>(a: seq<T>, b: seq<T>, key: T -> K)
    requires DistinctBy(a, key) && multiset(a) == multiset(b)
    ensures DistinctBy(b, key)
    ensures forall x :: x in b <==> x in a
  {
    forall x
      ensures x in a <==> x in b
    {
      assert x in a <==> x in multiset(a);
      assert x in b <==> x in multiset(b);
    }
    forall i, j | 0 <= i < j < |b|
      ensures key(b[i]) != key(b[j])
    {
      if b[i] == b[j] {
        TwoPositions(b, i, j);
        DistinctByOnce(a, key, b[j]);
      } else {
        assert b[i] in a && b[j] in a;
        var p :| 0 <= p < |a| && a[p] == b[i];
        var q :| 0 <= q < |a| && a[q] == b[j];
        assert p != q;
        if p < q {
          assert key(a[p]) != key(a[q]);
        } else {
          assert key(a[q]) != key(a[p]);
        }
      }
    }
  }
}
