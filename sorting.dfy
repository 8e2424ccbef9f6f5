/** A stable sort into descending order of an integer key: the model of Kotlin's
    `sortedByDescending`, whose documentation promises stability (elements with equal
    keys keep their relative order). */
module Sorting {
  import opened Common

  /** Keys never increase from left to right. */
  predicate SortedDesc<T>(s: seq<T>, key: T -> int) {
    forall i, j :: 0 <= i < j < |s| ==> key(s[i]) >= key(s[j])
  }

  /** The elements whose key is `v`, in their original order. */
  function WithKey<T>(s: seq<T>, key: T -> int, v: int): (r: seq<T>)
    ensures |r| <= |s|
    ensures forall i :: 0 <= i < |r| ==> key(r[i]) == v
  {
    if s == [] then []
    else if key(s[0]) == v then [s[0]] + WithKey(s[1..], key, v)
    else WithKey(s[1..], key, v)
  }

  /** Puts `x` in front of the first element whose key is not larger than its own. */
  function Insert<T>(x: T, s: seq<T>, key: T -> int): (r: seq<T>)
    ensures |r| == |s| + 1
  {
    if s == [] || key(s[0]) <= key(x) then [x] + s
    else [s[0]] + Insert(x, s[1..], key)
  }

  lemma {:induction false} InsertPerm<T>(x: T, s: seq<T>, key: T -> int)
    ensures multiset(Insert(x, s, key)) == multiset(s) + multiset{x}
  {
    if !(s == [] || key(s[0]) <= key(x)) {
      InsertPerm(x, s[1..], key);
      assert s == [s[0]] + s[1..];
    }
  }

  lemma {:induction false} InsertMembers<T>(x: T, s: seq<T>, key: T -> int)
    ensures forall k :: 0 <= k < |Insert(x, s, key)| ==> Insert(x, s, key)[k] == x || Insert(x, s, key)[k] in s
  {
    if !(s == [] || key(s[0]) <= key(x)) {
      InsertMembers(x, s[1..], key);
      var rest := Insert(x, s[1..], key);
      forall k | 0 <= k < |rest| ensures rest[k] == x || rest[k] in s {
        assert rest[k] in s[1..] ==> rest[k] in s;
      }
    }
  }

  /** A head no smaller than anything after it extends a sorted sequence. */
  lemma ConsSorted<T>(h: T, rest: seq<T>, key: T -> int)
    requires SortedDesc(rest, key)
    requires forall k :: 0 <= k < |rest| ==> key(h) >= key(rest[k])
    ensures SortedDesc([h] + rest, key)
  {
    var r := [h] + rest;
    forall i, j | 0 <= i < j < |r| ensures key(r[i]) >= key(r[j]) {
      assert r[j] == rest[j - 1];
      if i > 0 {
        assert r[i] == rest[i - 1];
      }
    }
  }

  lemma {:induction false} InsertSorted<T>(x: T, s: seq<T>, key: T -> int)
    requires SortedDesc(s, key)
    ensures SortedDesc(Insert(x, s, key), key)
  {
    if s == [] || key(s[0]) <= key(x) {
      ConsSorted(x, s, key);
    } else {
      var tail := s[1..];
      var rest := Insert(x, tail, key);
      InsertSorted(x, tail, key);
      InsertMembers(x, tail, key);
      forall k | 0 <= k < |rest| ensures key(s[0]) >= key(rest[k]) {
        if rest[k] != x {
          var j :| 0 <= j < |tail| && tail[j] == rest[k];
          assert s[j + 1] == rest[k];
        }
      }
      ConsSorted(s[0], rest, key);
    }
  }

  /** Insertion sort: a permutation of `s` in descending key order. */
  function SortDesc<T>(s: seq<T>, key: T -> int): (r: seq<T>)
    ensures |r| == |s|
    ensures multiset(r) == multiset(s)
    ensures SortedDesc(r, key)
  {
    if s == [] then []
    else
      var rest := SortDesc(s[1..], key);
      InsertPerm(s[0], rest, key);
      InsertSorted(s[0], rest, key);
      assert s == [s[0]] + s[1..];
      Insert(s[0], rest, key)
  }

  lemma {:induction false} InsertWithKey<T>(x: T, s: seq<T>, key: T -> int, v: int)
    ensures WithKey(Insert(x, s, key), key, v)
         == (if key(x) == v then [x] + WithKey(s, key, v) else WithKey(s, key, v))
  {
    if s == [] || key(s[0]) <= key(x) {
      assert ([x] + s)[1..] == s;
    } else {
      InsertWithKey(x, s[1..], key, v);
      assert ([s[0]] + Insert(x, s[1..], key))[1..] == Insert(x, s[1..], key);
    }
  }

  /** Stability: for every key value, the sorted sequence lists the elements with that
      key in exactly the order the input does. */
  lemma {:induction false} SortDescStable<T>(s: seq<T>, key: T -> int, v: int)
    ensures WithKey(SortDesc(s, key), key, v) == WithKey(s, key, v)
  {
    if s != [] {
      SortDescStable(s[1..], key, v);
      InsertWithKey(s[0], SortDesc(s[1..], key), key, v);
    }
  }

  /** Taking a prefix of a sorted sequence keeps it sorted, and nothing left out has a
      larger key than anything kept. */
  lemma PrefixOfSorted<T>(s: seq<T>, key: T -> int, n: nat)
    requires SortedDesc(s, key) && n <= |s|
    ensures SortedDesc(s[..n], key)
    ensures forall i, j :: 0 <= i < n <= j < |s| ==> key(s[i]) >= key(s[j])
  {
  }

  lemma {:induction false} WithKeyPrefix<T>(s: seq<T>, key: T -> int, v: int, n: nat)
    requires n <= |s|
    ensures var p := WithKey(s[..n], key, v);
            |p| <= |WithKey(s, key, v)| && p == WithKey(s, key, v)[..|p|]
    decreases n
  {
    if n > 0 {
      assert s[..n][1..] == s[1..][..n - 1];
      WithKeyPrefix(s[1..], key, v, n - 1);
    }
  }

  /** A sequence's elements are those of its first `m` and those of the rest. */
  lemma SplitMultiset<T>(s: seq<T>, m: nat)
    requires m <= |s|
    ensures multiset(s) == multiset(s[..m]) + multiset(s[m..])
  {
    assert s == s[..m] + s[m..];
  }

  /** The first `n` of the sorted sequence are drawn from `s`, and are all of `s` when
      fewer than `n` are taken. */
  lemma TopDrawn<T>(s: seq<T>, key: T -> int, n: nat)
    ensures var r := Take(SortDesc(s, key), n);
            && multiset(r) <= multiset(s)
            && (|r| < n ==> multiset(r) == multiset(s))
  {
    var sorted := SortDesc(s, key);
    var r := Take(sorted, n);
    assert r == sorted[..|r|];
    SplitMultiset(sorted, |r|);
  }

  /** Each of the first `n` of the sorted sequence is an element of `s`. */
  lemma TopElement<T>(s: seq<T>, key: T -> int, n: nat, k: int)
    requires 0 <= k < |Take(SortDesc(s, key), n)|
    ensures Take(SortDesc(s, key), n)[k] in multiset(s)
  {
    var sorted := SortDesc(s, key);
    assert Take(sorted, n)[k] == sorted[k];
    assert sorted[k] in multiset(sorted);
  }

  /** For every key, the first `n` of the sorted sequence hold the first of the elements
      of `s` with that key, in their original order. */
  lemma TopStable<T>(s: seq<T>, key: T -> int, n: nat, v: int)
    ensures var rv := WithKey(Take(SortDesc(s, key), n), key, v);
            |rv| <= |WithKey(s, key, v)| && rv == WithKey(s, key, v)[..|rv|]
  {
    var sorted := SortDesc(s, key);
    var r := Take(sorted, n);
    assert r == sorted[..|r|];
    SortDescStable(s, key, v);
    WithKeyPrefix(sorted, key, v, |r|);
  }

  /** An element counted in `s` but not among its first `m` sits at or after `m`. */
  lemma LeftOutIsLater<T>(s: seq<T>, m: nat, x: T)
    requires m <= |s| && x in multiset(s) - multiset(s[..m])
    ensures exists j :: m <= j < |s| && s[j] == x
  {
    SplitMultiset(s, m);
    assert x in multiset(s[m..]);
    var j :| 0 <= j < |s| - m && s[m..][j] == x;
    assert s[m + j] == x;
  }

  /** Nothing left out of the first `n` has a larger key than anything kept. */
  lemma TopKeepsBest<T>(s: seq<T>, key: T -> int, n: nat)
    ensures var r := Take(SortDesc(s, key), n);
            forall x, k :: x in multiset(s) - multiset(r) && 0 <= k < |r| ==> key(x) <= key(r[k])
  {
    var sorted := SortDesc(s, key);
    var r := Take(sorted, n);
    assert r == sorted[..|r|];
    forall x, k | x in multiset(s) - multiset(r) && 0 <= k < |r| ensures key(x) <= key(r[k]) {
      LeftOutIsLater(sorted, |r|, x);
      var j :| |r| <= j < |sorted| && sorted[j] == x;
      assert r[k] == sorted[k];
      assert key(sorted[k]) >= key(sorted[j]);
    }
  }
}
