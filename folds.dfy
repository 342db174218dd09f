/** The two list operations every page uses: `Array.prototype.filter` and a
    `reduce` that sums a number per element. */
module Folds {

  /** The elements of `s` that satisfy `p`, in their original order. */
  function Filter<T(!new)>(s: seq<T>, p: T -> bool): (r: seq<T>)
    ensures |r| <= |s|
    ensures forall x :: x in r <==> x in s && p(x)
    decreases |s|
  {
    if s == [] then []
    else if p(s[|s| - 1]) then Filter(s[..|s| - 1], p) + [s[|s| - 1]]
    else Filter(s[..|s| - 1], p)
  }

  /** `s.reduce((sum, x) => sum + f(x), 0)`. */
  function Sum<T>(s: seq<T>, f: T -> int): int
    decreases |s|
  {
    if s == [] then 0 else Sum(s[..|s| - 1], f) + f(s[|s| - 1])
  }

  /** `f` where `p` holds and 0 elsewhere. */
  function Masked<T>(p: T -> bool, f: T -> int): T -> int {
    x => if p(x) then f(x) else 0
  }

  function Not<T>(p: T -> bool): T -> bool {
    x => !p(x)
  }

  lemma {:induction false} FilterAppend<T(!new)>(a: seq<T>, b: seq<T>, p: T -> bool)
    ensures Filter(a + b, p) == Filter(a, p) + Filter(b, p)
    decreases |b|
  {
    if b == [] {
      assert a + b == a;
    } else {
      var b' := b[..|b| - 1];
      assert (a + b)[..|a + b| - 1] == a + b';
      assert (a + b)[|a + b| - 1] == b[|b| - 1];
      FilterAppend(a, b', p);
    }
  }

  lemma {:induction false} SumAppend<T>(a: seq<T>, b: seq<T>, f: T -> int)
    ensures Sum(a + b, f) == Sum(a, f) + Sum(b, f)
    decreases |b|
  {
    if b == [] {
      assert a + b == a;
    } else {
      var b' := b[..|b| - 1];
      assert (a + b)[..|a + b| - 1] == a + b';
      assert (a + b)[|a + b| - 1] == b[|b| - 1];
      SumAppend(a, b', f);
    }
  }

  /** Summing the elements that satisfy `p` and those that do not gives the
      sum of all of them. */
  lemma {:induction false} SumPartition<T(!new)>(s: seq<T>, p: T -> bool, f: T -> int)
    ensures Sum(Filter(s, p), f) + Sum(Filter(s, Not(p)), f) == Sum(s, f)
    decreases |s|
  {
    if s != [] {
      var s' := s[..|s| - 1];
      var x := s[|s| - 1];
      SumPartition(s', p, f);
      if p(x) {
        SumAppend(Filter(s', p), [x], f);
      } else {
        SumAppend(Filter(s', Not(p)), [x], f);
      }
    }
  }

  /** Summing a filter is summing with the elements that fail `p` counted as 0. */
  lemma {:induction false} SumFilter<T(!new)>(s: seq<T>, p: T -> bool, f: T -> int)
    ensures Sum(Filter(s, p), f) == Sum(s, Masked(p, f))
    decreases |s|
  {
    if s != [] {
      var s' := s[..|s| - 1];
      var x := s[|s| - 1];
      SumFilter(s', p, f);
      if p(x) {
        SumAppend(Filter(s', p), [x], f);
      }
    }
  }

  /** Sums of element-wise equal summands are equal. */
  lemma {:induction false} SumCongruent<T>(s: seq<T>, f: T -> int, g: T -> int)
    requires forall i :: 0 <= i < |s| ==> f(s[i]) == g(s[i])
    ensures Sum(s, f) == Sum(s, g)
    decreases |s|
  {
    if s != [] {
      SumCongruent(s[..|s| - 1], f, g);
    }
  }

  /** Replacing one element changes the sum by the difference of the two summands. */
  lemma {:induction false} SumUpdate<T>(s: seq<T>, i: int, x: T, f: T -> int)
    requires 0 <= i < |s|
    ensures Sum(s[i := x], f) == Sum(s, f) - f(s[i]) + f(x)
    decreases |s|
  {
    var n := |s| - 1;
    if i == n {
      assert s[i := x][..n] == s[..n];
    } else {
      assert s[i := x][..n] == s[..n][i := x];
      SumUpdate(s[..n], i, x, f);
    }
  }

  /** Sums of summands that add up pointwise add up. */
  lemma {:induction false} SumPlus<T>(s: seq<T>, f: T -> int, g: T -> int, h: T -> int)
    requires forall i :: 0 <= i < |s| ==> h(s[i]) == f(s[i]) + g(s[i])
    ensures Sum(s, h) == Sum(s, f) + Sum(s, g)
    decreases |s|
  {
    if s != [] {
      SumPlus(s[..|s| - 1], f, g, h);
    }
  }

  /** A sum of summands that are never negative is not negative. */
  lemma {:induction false} SumNonNegative<T>(s: seq<T>, f: T -> int)
    requires forall i :: 0 <= i < |s| ==> f(s[i]) >= 0
    ensures Sum(s, f) >= 0
    decreases |s|
  {
    if s != [] {
      SumNonNegative(s[..|s| - 1], f);
    }
  }

  // ---- grouping by a key ----

  function KeyIs<T, K(==)>(key: T -> K, k: K): T -> bool {
    x => key(x) == k
  }

  function KeyIn<T, K(==)>(key: T -> K, ks: seq<K>): T -> bool {
    x => key(x) in ks
  }

  /** The sum of `f` over the elements of group `k`. */
  function GroupSum<T(!new), K(==)>(s: seq<T>, key: T -> K, f: T -> int): K -> int {
    k => Sum(Filter(s, KeyIs(key, k)), f)
  }

  predicate Distinct<K(==)>(ks: seq<K>) {
    forall i, j :: 0 <= i < j < |ks| ==> ks[i] != ks[j]
  }

  /** Adding up the sums of distinct groups sums every element of those groups once. */
  lemma {:induction false} SumGroups<T(!new), K>(ks: seq<K>, s: seq<T>, key: T -> K, f: T -> int)
    requires Distinct(ks)
    ensures Sum(ks, GroupSum(s, key, f)) == Sum(Filter(s, KeyIn(key, ks)), f)
    decreases |ks|
  {
    SumFilter(s, KeyIn(key, ks), f);
    if ks == [] {
      SumCongruent(s, Masked(KeyIn(key, ks), f), x => 0);
      SumZero(s);
    } else {
      var init, k := ks[..|ks| - 1], ks[|ks| - 1];
      assert ks == init + [k];
      assert Distinct(init) && k !in init;
      assert Sum(init, GroupSum(s, key, f)) == Sum(s, Masked(KeyIn(key, init), f)) by {
        SumGroups(init, s, key, f);
        SumFilter(s, KeyIn(key, init), f);
      }
      assert GroupSum(s, key, f)(k) == Sum(s, Masked(KeyIs(key, k), f)) by {
        SumFilter(s, KeyIs(key, k), f);
      }
      assert Sum(s, Masked(KeyIn(key, ks), f)) == Sum(s, Masked(KeyIn(key, init), f)) + Sum(s, Masked(KeyIs(key, k), f)) by {
        forall i | 0 <= i < |s|
          ensures Masked(KeyIn(key, ks), f)(s[i]) == Masked(KeyIn(key, init), f)(s[i]) + Masked(KeyIs(key, k), f)(s[i])
        {
          assert key(s[i]) in ks <==> key(s[i]) in init || key(s[i]) == k;
        }
        SumPlus(s, Masked(KeyIn(key, init), f), Masked(KeyIs(key, k), f), Masked(KeyIn(key, ks), f));
      }
    }
  }

  lemma {:induction false} SumZero<T>(s: seq<T>)
    ensures Sum(s, x => 0) == 0
    decreases |s|
  {
    if s != [] {
      SumZero(s[..|s| - 1]);
    }
  }

  /** When every element belongs to one of the distinct groups, the group sums
      add up to the sum over all elements. */
  lemma SumGroupsCover<T(!new), K>(ks: seq<K>, s: seq<T>, key: T -> K, f: T -> int)
    requires Distinct(ks)
    requires forall i :: 0 <= i < |s| ==> key(s[i]) in ks
    ensures Sum(ks, GroupSum(s, key, f)) == Sum(s, f)
  {
    SumGroups(ks, s, key, f);
    SumFilter(s, KeyIn(key, ks), f);
    SumCongruent(s, Masked(KeyIn(key, ks), f), f);
  }
}
