/**
 * Sequence helpers: filtering, counting, subsequences, truncation and the
 * stable sort that JavaScript's `Array.prototype.sort` performs with a
 * numeric comparator.
 */
module Seqs {

  /** Number of occurrences of `x` in `s`. */
  function Count<T(==)>(s: seq<T>, x: T): nat
  {
    if |s| == 0 then 0 else Count(s[..|s| - 1], x) + (if s[|s| - 1] == x then 1 else 0)
  }

  lemma {:induction false} CountAppend<T>(a: seq<T>, b: seq<T>, x: T)
    ensures Count(a + b, x) == Count(a, x) + Count(b, x)
    decreases |b|
  {
    if |b| == 0 {
      assert a + b == a;
    } else {
      assert (a + b)[..|a + b| - 1] == a + b[..|b| - 1];
      CountAppend(a, b[..|b| - 1], x);
    }
  }

  lemma {:induction false} CountPositive<T>(s: seq<T>, x: T)
    ensures Count(s, x) > 0 <==> x in s
    decreases |s|
  {
    if |s| > 0 {
      CountPositive(s[..|s| - 1], x);
      assert s == s[..|s| - 1] + [s[|s| - 1]];
      assert x in s <==> x in s[..|s| - 1] || x == s[|s| - 1];
    }
  }

  /** `a` can be obtained from `b` by deleting elements. */
  predicate IsSubsequence<T(==)>(a: seq<T>, b: seq<T>)
    decreases |b|
  {
    if |a| == 0 then true
    else if |b| == 0 then false
    else if a[0] == b[0] then IsSubsequence(a[1..], b[1..])
    else IsSubsequence(a, b[1..])
  }

  lemma {:induction false} SubsequenceOfTail<T>(a: seq<T>, b: seq<T>, x: T)
    requires IsSubsequence(a, b)
    ensures IsSubsequence(a, [x] + b)
    decreases |b|, 1
  {
    if |a| > 0 && a[0] == x {
      assert ([x] + b)[1..] == b;
      SubsequenceDropHead(a, b);
    } else {
      assert ([x] + b)[1..] == b;
    }
  }

  lemma {:induction false} SubsequenceDropHead<T>(a: seq<T>, b: seq<T>)
    requires |a| > 0 && IsSubsequence(a, b)
    ensures IsSubsequence(a[1..], b)
    decreases |b|, 0
  {
    if a[0] == b[0] {
      SubsequenceOfTail(a[1..], b[1..], b[0]);
      assert b == [b[0]] + b[1..];
    } else {
      SubsequenceDropHead(a, b[1..]);
      SubsequenceOfTail(a[1..], b[1..], b[0]);
      assert b == [b[0]] + b[1..];
    }
  }

  /** `s.filter(f)`: the elements satisfying `f`, in their original order. */
  function Filter<T>(f: T -> bool, s: seq<T>): (r: seq<T>)
    ensures |r| <= |s|
    ensures forall i :: 0 <= i < |r| ==> f(r[i]) && r[i] in s
    ensures forall i :: 0 <= i < |s| && f(s[i]) ==> s[i] in r
  {
    if |s| == 0 then []
    else if f(s[0]) then [s[0]] + Filter(f, s[1..])
    else Filter(f, s[1..])
  }

  lemma {:induction false} FilterIsSubsequence<T>(f: T -> bool, s: seq<T>)
    ensures IsSubsequence(Filter(f, s), s)
    decreases |s|
  {
    if |s| > 0 {
      FilterIsSubsequence(f, s[1..]);
      if f(s[0]) {
        assert Filter(f, s)[1..] == Filter(f, s[1..]);
      } else {
        SubsequenceOfTail(Filter(f, s[1..]), s[1..], s[0]);
        assert s == [s[0]] + s[1..];
      }
    }
  }

  lemma {:induction false} FilterAppend<T>(f: T -> bool, a: seq<T>, b: seq<T>)
    ensures Filter(f, a + b) == Filter(f, a) + Filter(f, b)
    decreases |a|
  {
    if |a| == 0 {
      assert a + b == b;
    } else {
      assert (a + b)[0] == a[0] && (a + b)[1..] == a[1..] + b;
      FilterAppend(f, a[1..], b);
    }
  }

  /** Each value is kept as often as it occurs when it satisfies `f`, and never otherwise. */
  lemma {:induction false} FilterMultiplicity<T>(f: T -> bool, s: seq<T>, x: T)
    ensures multiset(Filter(f, s))[x] == if f(x) then multiset(s)[x] else 0
    decreases |s|
  {
    if |s| > 0 {
      FilterMultiplicity(f, s[1..], x);
      assert s == [s[0]] + s[1..];
      assert multiset(s) == multiset([s[0]]) + multiset(s[1..]);
    }
  }

  /** Keeping every element that satisfies `f` keeps the whole sequence. */
  lemma {:induction false} FilterAll<T>(f: T -> bool, s: seq<T>)
    requires forall i :: 0 <= i < |s| ==> f(s[i])
    ensures Filter(f, s) == s
    decreases |s|
  {
    if |s| > 0 {
      FilterAll(f, s[1..]);
    }
  }

  /** `s.slice(0, n)`. */
  function Take<T>(s: seq<T>, n: nat): (r: seq<T>)
    ensures |r| == if |s| < n then |s| else n
    ensures r <= s
  {
    if |s| < n then s else s[..n]
  }

  /* ---------------- stable sorting by an integer key ---------------- */

  /** Ascending by `key`. */
  ghost predicate SortedBy<T>(s: seq<T>, key: T -> int)
  {
    forall i, j :: 0 <= i < j < |s| ==> key(s[i]) <= key(s[j])
  }

  /** The elements of `s` whose key is `v`, in their original order. */
  function KeyClass<T>(s: seq<T>, key: T -> int, v: int): seq<T>
  {
    Filter(x => key(x) == v, s)
  }

  /** Inserts `x` before the first element whose key is not smaller. */
  function Insert<T>(x: T, s: seq<T>, key: T -> int): (r: seq<T>)
    ensures |r| == |s| + 1
    ensures multiset(r) == multiset(s) + multiset{x}
  {
    if |s| == 0 || key(x) <= key(s[0]) then [x] + s
    else
      assert s == [s[0]] + s[1..];
      [s[0]] + Insert(x, s[1..], key)
  }

  /** Inserting into a sorted sequence keeps it sorted. */
  lemma {:induction false} InsertSorted<T>(x: T, s: seq<T>, key: T -> int)
    requires SortedBy(s, key)
    ensures SortedBy(Insert(x, s, key), key)
    decreases |s|
  {
    if |s| == 0 || key(x) <= key(s[0]) {
      forall k | 0 <= k < |s| ensures key(x) <= key(s[k]) {
        if k > 0 {
          assert key(s[0]) <= key(s[k]);
        }
      }
      ConsSorted(x, s, key);
    } else {
      var t := Insert(x, s[1..], key);
      InsertSorted(x, s[1..], key);
      forall k | 0 <= k < |s[1..]| ensures key(s[0]) <= key(s[1..][k]) {
        assert s[1..][k] == s[k + 1];
      }
      InsertBound(x, s[1..], key, key(s[0]));
      ConsSorted(s[0], t, key);
    }
  }

  /** Every element of an insertion is bounded below when `x` and `s` are. */
  lemma InsertBound<T>(x: T, s: seq<T>, key: T -> int, b: int)
    requires b <= key(x)
    requires forall i :: 0 <= i < |s| ==> b <= key(s[i])
    ensures forall k :: 0 <= k < |Insert(x, s, key)| ==> b <= key(Insert(x, s, key)[k])
  {
    var r := Insert(x, s, key);
    forall k | 0 <= k < |r| ensures b <= key(r[k]) {
      assert r[k] in multiset(r);
      if r[k] != x {
        assert r[k] in multiset(s);
        var p :| 0 <= p < |s| && s[p] == r[k];
      }
    }
  }

  /** A sorted sequence stays sorted behind an element no greater than any of it. */
  lemma ConsSorted<T>(h: T, t: seq<T>, key: T -> int)
    requires SortedBy(t, key)
    requires forall k :: 0 <= k < |t| ==> key(h) <= key(t[k])
    ensures SortedBy([h] + t, key)
  {
    var r := [h] + t;
    forall i, j | 0 <= i < j < |r| ensures key(r[i]) <= key(r[j]) {
      assert r[j] == t[j - 1];
      if i > 0 {
        assert r[i] == t[i - 1];
      }
    }
  }

  /**
   * Stable insertion sort, as `arr.sort((a, b) => key(a) - key(b))` behaves:
   * ascending by key, a permutation of the input, and elements with equal keys
   * keep their relative order.
   */
  function SortBy<T>(s: seq<T>, key: T -> int): (r: seq<T>)
    ensures |r| == |s|
    ensures multiset(r) == multiset(s)
    ensures SortedBy(r, key)
  {
    if |s| == 0 then []
    else
      assert s == [s[0]] + s[1..];
      var t := SortBy(s[1..], key);
      InsertSorted(s[0], t, key);
      Insert(s[0], t, key)
  }

  lemma {:induction false} InsertKeyClass<T>(x: T, s: seq<T>, key: T -> int, v: int)
    requires SortedBy(s, key)
    ensures KeyClass(Insert(x, s, key), key, v) == (if key(x) == v then [x] else []) + KeyClass(s, key, v)
    decreases |s|
  {
    if |s| == 0 || key(x) <= key(s[0]) {
      assert Insert(x, s, key) == [x] + s;
      assert ([x] + s)[1..] == s;
    } else {
      var t := Insert(x, s[1..], key);
      assert Insert(x, s, key) == [s[0]] + t;
      assert ([s[0]] + t)[1..] == t;
      InsertKeyClass(x, s[1..], key, v);
    }
  }

  /** Sorting is stable: each class of equal keys keeps its order. */
  lemma {:induction false} SortByStable<T>(s: seq<T>, key: T -> int, v: int)
    ensures KeyClass(SortBy(s, key), key, v) == KeyClass(s, key, v)
    decreases |s|
  {
    if |s| > 0 {
      SortByStable(s[1..], key, v);
      InsertKeyClass(s[0], SortBy(s[1..], key), key, v);
    }
  }

  /** An already sorted sequence is left as it is. */
  lemma {:induction false} SortBySorted<T>(s: seq<T>, key: T -> int)
    requires SortedBy(s, key)
    ensures SortBy(s, key) == s
    decreases |s|
  {
    if |s| > 0 {
      SortBySorted(s[1..], key);
      assert SortBy(s, key) == Insert(s[0], s[1..], key);
      assert s == [s[0]] + s[1..];
    }
  }

  /** Dropping every element that fails `f` drops everything when nothing satisfies it. */
  lemma {:induction false} FilterNone<T>(f: T -> bool, s: seq<T>)
    requires forall i :: 0 <= i < |s| ==> !f(s[i])
    ensures Filter(f, s) == []
    decreases |s|
  {
    if |s| > 0 {
      FilterNone(f, s[1..]);
    }
  }

  lemma {:induction false} FilterInsertLength<T>(f: T -> bool, x: T, s: seq<T>, key: T -> int)
    ensures |Filter(f, Insert(x, s, key))| == |Filter(f, s)| + (if f(x) then 1 else 0)
    decreases |s|
  {
    if |s| > 0 && key(x) > key(s[0]) {
      FilterInsertLength(f, x, s[1..], key);
      assert Insert(x, s, key) == [s[0]] + Insert(x, s[1..], key);
      assert ([s[0]] + Insert(x, s[1..], key))[1..] == Insert(x, s[1..], key);
    } else {
      assert Insert(x, s, key) == [x] + s;
      assert ([x] + s)[1..] == s;
    }
  }

  /** Sorting does not change how many elements satisfy a condition. */
  lemma {:induction false} FilterSortLength<T>(f: T -> bool, s: seq<T>, key: T -> int)
    ensures |Filter(f, SortBy(s, key))| == |Filter(f, s)|
    decreases |s|
  {
    if |s| > 0 {
      FilterSortLength(f, s[1..], key);
      FilterInsertLength(f, s[0], SortBy(s[1..], key), key);
    }
  }

  /** The first `n` of a sorted sequence are sorted and drawn from it. */
  lemma TakeSorted<T>(s: seq<T>, key: T -> int, n: nat)
    requires SortedBy(s, key)
    ensures SortedBy(Take(s, n), key)
    ensures multiset(Take(s, n)) <= multiset(s)
  {
    var r := Take(s, n);
    assert s == r + s[|r|..];
    assert multiset(s) == multiset(r) + multiset(s[|r|..]);
  }

  /**
   * The first `n` of a sorted sequence come first: an element left out has
   * a key no smaller than any element kept.
   */
  lemma TakeSortedDominates<T>(s: seq<T>, key: T -> int, n: nat, x: T, i: nat)
    requires x in s && x !in Take(SortBy(s, key), n) && i < |Take(SortBy(s, key), n)|
    ensures key(Take(SortBy(s, key), n)[i]) <= key(x)
  {
    var t := SortBy(s, key);
    var r := Take(t, n);
    assert x in multiset(t);
    var p :| 0 <= p < |t| && t[p] == x;
    assert r == t[..|r|];
    assert p >= |r|;
    assert r[i] == t[i];
  }
}
