/** A stable insertion sort by an integer key, standing for the sorts the
    pages do (`Array.prototype.sort` with a comparator, and the database's
    `order(...)`). */
module Sorting {

  /** Keys never decrease from left to right. */
  predicate SortedAsc<T>(s: seq<T>, key: T -> int) {
    forall i, j :: 0 <= i < j < |s| ==> key(s[i]) <= key(s[j])
  }

  /** Keys never increase from left to right. */
  predicate SortedDesc<T>(s: seq<T>, key: T -> int) {
    forall i, j :: 0 <= i < j < |s| ==> key(s[i]) >= key(s[j])
  }

  /** Keys strictly increase from left to right, so no key appears twice. */
  predicate StrictlyAsc<T>(s: seq<T>, key: T -> int) {
    forall i, j :: 0 <= i < j < |s| ==> key(s[i]) < key(s[j])
  }

  /** Puts `x` after every element whose key is at most `key(x)`. */
  function Insert<T(==,!new)>(x: T, s: seq<T>, key: T -> int): (r: seq<T>)
    requires SortedAsc(s, key)
    ensures SortedAsc(r, key)
    ensures forall y :: y in r <==> y == x || y in s
    ensures multiset(r) == multiset(s) + multiset{x}
    ensures |r| == |s| + 1
    decreases |s|
  {
    if s == [] then [x]
    else if key(x) < key(s[0]) then [x] + s
    else
      var rest := Insert(x, s[1..], key);
      assert s == [s[0]] + s[1..];
      assert forall y :: y in rest ==> key(s[0]) <= key(y) by {
        forall y | y in s[1..] ensures key(s[0]) <= key(y) {
          var k :| 0 <= k < |s[1..]| && s[1..][k] == y;
          assert s[k + 1] == y;
        }
      }
      ConsSorted(s[0], rest, key);
      [s[0]] + rest
  }

  lemma ConsSorted<T>(x: T, s: seq<T>, key: T -> int)
    requires SortedAsc(s, key)
    requires forall k :: 0 <= k < |s| ==> key(x) <= key(s[k])
    ensures SortedAsc([x] + s, key)
  {
    var r := [x] + s;
    forall i, j | 0 <= i < j < |r| ensures key(r[i]) <= key(r[j]) {
      if i > 0 { assert r[i] == s[i - 1] && r[j] == s[j - 1]; } else { assert r[j] == s[j - 1]; }
    }
  }

  /** `s` sorted by ascending key; equal keys keep their order. */
  function SortAsc<T(==,!new)>(s: seq<T>, key: T -> int): (r: seq<T>)
    ensures SortedAsc(r, key)
    ensures multiset(r) == multiset(s)
    ensures |r| == |s|
    decreases |s|
  {
    if s == [] then []
    else
      assert s == s[..|s| - 1] + [s[|s| - 1]];
      Insert(s[|s| - 1], SortAsc(s[..|s| - 1], key), key)
  }

  /** Sorting keeps exactly the elements it was given. */
  lemma SortAscMembers<T(!new)>(s: seq<T>, key: T -> int)
    ensures forall x :: x in SortAsc(s, key) <==> x in s
  {
    var r := SortAsc(s, key);
    forall x ensures x in r <==> x in s {
      assert x in r <==> x in multiset(r);
      assert x in s <==> x in multiset(s);
    }
  }

  function Negated<T>(key: T -> int): T -> int {
    x => -key(x)
  }

  /** `s` sorted by descending key; equal keys keep their order. */
  function SortDesc<T(==,!new)>(s: seq<T>, key: T -> int): (r: seq<T>)
    ensures SortedDesc(r, key)
    ensures multiset(r) == multiset(s)
    ensures |r| == |s|
  {
    var r := SortAsc(s, Negated(key));
    assert forall i, j :: 0 <= i < j < |r| ==> -key(r[i]) <= -key(r[j]);
    r
  }

  /** No two elements share a name. */
  ghost predicate DistinctBy<T, K>(s: seq<T>, name: T -> K) {
    forall i, j :: 0 <= i < j < |s| ==> name(s[i]) != name(s[j])
  }

  lemma ConsDistinct<T, K>(x: T, s: seq<T>, name: T -> K)
    requires DistinctBy(s, name)
    requires forall y :: y in s ==> name(y) != name(x)
    ensures DistinctBy([x] + s, name)
  {
    var r := [x] + s;
    forall i, j | 0 <= i < j < |r| ensures name(r[i]) != name(r[j]) {
      assert r[j] == s[j - 1] && s[j - 1] in s;
      if i > 0 { assert r[i] == s[i - 1]; }
    }
  }

  lemma {:induction false} InsertKeepsDistinct<T(!new), K>(x: T, s: seq<T>, key: T -> int, name: T -> K)
    requires SortedAsc(s, key) && DistinctBy(s, name)
    requires forall y :: y in s ==> name(y) != name(x)
    ensures DistinctBy(Insert(x, s, key), name)
    decreases |s|
  {
    if s == [] {
    } else if key(x) < key(s[0]) {
      ConsDistinct(x, s, name);
    } else {
      var tail := s[1..];
      assert SortedAsc(tail, key) && DistinctBy(tail, name);
      assert forall y :: y in tail ==> y in s;
      InsertKeepsDistinct(x, tail, key, name);
      var rest := Insert(x, tail, key);
      assert Insert(x, s, key) == [s[0]] + rest;
      forall y | y in rest ensures name(y) != name(s[0]) {
        if y == x {
          assert s[0] in s;
        } else {
          var k :| 0 <= k < |tail| && tail[k] == y;
          assert s[k + 1] == y;
        }
      }
      ConsDistinct(s[0], rest, name);
    }
  }

  /** Sorting never makes two elements share a name: a permutation of
      elements with distinct names has distinct names. */
  lemma {:induction false} SortKeepsDistinct<T(!new), K>(s: seq<T>, key: T -> int, name: T -> K)
    requires DistinctBy(s, name)
    ensures DistinctBy(SortAsc(s, key), name)
    decreases |s|
  {
    if s != [] {
      var init, x := s[..|s| - 1], s[|s| - 1];
      assert DistinctBy(init, name);
      SortKeepsDistinct(init, key, name);
      var sorted := SortAsc(init, key);
      forall y | y in sorted ensures name(y) != name(x) {
        assert y in multiset(init);
        var k :| 0 <= k < |init| && init[k] == y;
        assert s[k] == y;
      }
      InsertKeepsDistinct(x, sorted, key, name);
    }
  }

  /** Sorting elements whose keys are pairwise distinct gives a strictly
      ascending sequence. */
  lemma SortAscDistinct<T(!new)>(s: seq<T>, key: T -> int)
    requires DistinctBy(s, key)
    ensures StrictlyAsc(SortAsc(s, key), key)
  {
    SortKeepsDistinct(s, key, key);
    var r := SortAsc(s, key);
    forall i, j | 0 <= i < j < |r| ensures key(r[i]) < key(r[j]) {
      assert key(r[i]) <= key(r[j]) && key(r[i]) != key(r[j]);
    }
  }

  /** The descending sort keeps names distinct too. */
  lemma SortDescKeepsDistinct<T(!new), K>(s: seq<T>, key: T -> int, name: T -> K)
    requires DistinctBy(s, name)
    ensures DistinctBy(SortDesc(s, key), name)
  {
    SortKeepsDistinct(s, Negated(key), name);
  }
}
