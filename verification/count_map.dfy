/**
 * Insertion-ordered count maps: the `new Map()` counters the dashboard and
 * the collection panel fill with `m.set(k, 1 + (m.get(k) || 0))`. A map is an
 * association list of entries; iterating it visits keys in first-insertion
 * order, as a JavaScript `Map` does.
 */
module CountMap {
  import opened Seqs

  datatype Entry<K> = Entry(key: K, count: nat)

  function Keys<K>(m: seq<Entry<K>>): (ks: seq<K>)
    ensures |ks| == |m|
    ensures forall i :: 0 <= i < |m| ==> ks[i] == m[i].key
  {
    if |m| == 0 then [] else [m[0].key] + Keys(m[1..])
  }

  predicate DistinctKeys<K(==)>(m: seq<Entry<K>>)
  {
    forall i, j :: 0 <= i < j < |m| ==> m[i].key != m[j].key
  }

  /** `m.get(k) || 0`. */
  function Lookup<K(==)>(m: seq<Entry<K>>, k: K): nat
  {
    if |m| == 0 then 0 else if m[0].key == k then m[0].count else Lookup(m[1..], k)
  }

  lemma {:induction false} LookupAbsent<K>(m: seq<Entry<K>>, k: K)
    requires k !in Keys(m)
    ensures Lookup(m, k) == 0
    decreases |m|
  {
    if |m| > 0 {
      assert Keys(m)[0] == m[0].key;
      assert Keys(m[1..]) == Keys(m)[1..];
      LookupAbsent(m[1..], k);
    }
  }

  /** `m.set(k, 1 + (m.get(k) || 0))`: an existing key keeps its place. */
  function Bump<K(==)>(m: seq<Entry<K>>, k: K): (r: seq<Entry<K>>)
    ensures k in Keys(m) ==> Keys(r) == Keys(m)
    ensures k !in Keys(m) ==> Keys(r) == Keys(m) + [k]
  {
    if |m| == 0 then [Entry(k, 1)]
    else if m[0].key == k then
      assert Keys(m) == [k] + Keys(m[1..]);
      var r := [Entry(k, m[0].count + 1)] + m[1..];
      assert Keys(r) == [k] + Keys(m[1..]);
      r
    else
      var t := Bump(m[1..], k);
      assert Keys(m) == [m[0].key] + Keys(m[1..]);
      assert Keys([m[0]] + t) == [m[0].key] + Keys(t);
      [m[0]] + t
  }

  /** Bumping keeps the keys distinct. */
  lemma BumpDistinct<K>(m: seq<Entry<K>>, k: K)
    requires DistinctKeys(m)
    ensures DistinctKeys(Bump(m, k))
  {
    var r := Bump(m, k);
    forall i, j | 0 <= i < j < |r| ensures r[i].key != r[j].key {
      assert r[i].key == Keys(r)[i] && r[j].key == Keys(r)[j];
      if j < |m| {
        assert Keys(r)[i] == Keys(m)[i] && Keys(r)[j] == Keys(m)[j];
      } else {
        assert Keys(r)[i] == Keys(m)[i] && Keys(r)[j] == k;
      }
    }
  }

  /** Bumping a key adds one to its count. */
  lemma {:induction false} BumpLookup<K>(m: seq<Entry<K>>, k: K)
    ensures Lookup(Bump(m, k), k) == Lookup(m, k) + 1
    decreases |m|
  {
    if |m| > 0 && m[0].key != k {
      BumpLookup(m[1..], k);
    }
  }

  lemma {:induction false} BumpOther<K>(m: seq<Entry<K>>, k: K, j: K)
    requires DistinctKeys(m) && j != k
    ensures Lookup(Bump(m, k), j) == Lookup(m, j)
    decreases |m|
  {
    if |m| > 0 && m[0].key != k {
      BumpOther(m[1..], k, j);
    }
  }

  /**
   * The count map built by bumping each key of `ks` in turn, starting from an
   * empty map.
   */
  function Tally<K(==)>(ks: seq<K>): (m: seq<Entry<K>>)
    ensures DistinctKeys(m)
  {
    if |ks| == 0 then []
    else
      var p := Tally(ks[..|ks| - 1]);
      BumpDistinct(p, ks[|ks| - 1]);
      Bump(p, ks[|ks| - 1])
  }

  /** Every key's count is its number of occurrences. */
  lemma {:induction false} TallyCounts<K>(ks: seq<K>, k: K)
    ensures Lookup(Tally(ks), k) == Count(ks, k)
    decreases |ks|
  {
    if |ks| > 0 {
      TallyCounts(ks[..|ks| - 1], k);
      if ks[|ks| - 1] != k {
        BumpOther(Tally(ks[..|ks| - 1]), ks[|ks| - 1], k);
      } else {
        BumpLookup(Tally(ks[..|ks| - 1]), k);
      }
    }
  }

  /** The keys of the map are exactly the distinct values of `ks`. */
  lemma {:induction false} TallyKeys<K>(ks: seq<K>, k: K)
    ensures k in Keys(Tally(ks)) <==> k in ks
    decreases |ks|
  {
    if |ks| > 0 {
      var p := ks[..|ks| - 1];
      TallyKeys(p, k);
      assert ks == p + [ks[|ks| - 1]];
    }
  }

  /** Index of the first occurrence of `x`. */
  function FirstIndex<K(==)>(s: seq<K>, x: K): (i: nat)
    requires x in s
    ensures i < |s| && s[i] == x
    ensures forall j :: 0 <= j < i ==> s[j] != x
  {
    if s[0] == x then 0 else 1 + FirstIndex(s[1..], x)
  }

  /** Keys are listed in the order of their first occurrence in `ks`. */
  lemma {:induction false} TallyFirstSeenOrder<K>(ks: seq<K>, i: nat, j: nat)
    requires i < j < |Tally(ks)|
    ensures Tally(ks)[i].key in ks && Tally(ks)[j].key in ks
    ensures FirstIndex(ks, Tally(ks)[i].key) < FirstIndex(ks, Tally(ks)[j].key)
    decreases |ks|
  {
    var p := ks[..|ks| - 1];
    if j < |Tally(p)| {
      TallyFirstSeenOrder(p, i, j);
      KeyCarriedOver(ks, i);
      KeyCarriedOver(ks, j);
    } else {
      KeyCarriedOver(ks, i);
      NewKeyIsLast(ks, j);
    }
  }

  /** An entry of the map of all but the last key keeps its key and first index when the last is bumped. */
  lemma KeyCarriedOver<K>(ks: seq<K>, i: nat)
    requires |ks| > 0 && i < |Tally(ks[..|ks| - 1])|
    ensures i < |Tally(ks)|
    ensures Tally(ks[..|ks| - 1])[i].key in ks[..|ks| - 1]
    ensures Tally(ks)[i].key == Tally(ks[..|ks| - 1])[i].key
    ensures FirstIndex(ks, Tally(ks)[i].key) == FirstIndex(ks[..|ks| - 1], Tally(ks)[i].key)
  {
    var p, x := ks[..|ks| - 1], ks[|ks| - 1];
    var mp := Tally(p);
    var k := mp[i].key;
    BumpKeepsKey(mp, x, i);
    TallyKeys(p, k);
    FirstIndexOfPrefix(ks, |ks| - 1, k);
  }

  /** A value that occurs in a prefix first occurs at the same index in the whole. */
  lemma FirstIndexOfPrefix<K>(s: seq<K>, n: nat, x: K)
    requires n <= |s| && x in s[..n]
    ensures x in s && FirstIndex(s, x) == FirstIndex(s[..n], x)
  {
    var a := FirstIndex(s[..n], x);
    assert s[a] == x;
    assert forall j :: 0 <= j < a ==> s[j] == s[..n][j];
  }

  /** Bumping keeps the key at every index it had. */
  lemma BumpKeepsKey<K>(m: seq<Entry<K>>, x: K, i: nat)
    requires i < |m|
    ensures i < |Bump(m, x)| && Bump(m, x)[i].key == m[i].key
  {
    var r := Bump(m, x);
    assert Keys(r)[i] == Keys(m)[i];
  }

  /** A key the earlier keys lack is appended last and first occurs at the last index. */
  lemma NewKeyIsLast<K>(ks: seq<K>, j: nat)
    requires |ks| > 0 && |Tally(ks[..|ks| - 1])| <= j < |Tally(ks)|
    ensures Tally(ks)[j].key == ks[|ks| - 1] && ks[|ks| - 1] !in ks[..|ks| - 1]
    ensures FirstIndex(ks, ks[|ks| - 1]) == |ks| - 1
  {
    var p, x := ks[..|ks| - 1], ks[|ks| - 1];
    var mp := Tally(p);
    var m := Tally(ks);
    TallyKeys(p, x);
    assert Keys(m) == Keys(mp) + [x];
    assert m[j].key == Keys(m)[j];
    assert forall t :: 0 <= t < |p| ==> ks[t] == p[t];
  }

  /** Total of the counts. */
  function SumCounts<K>(m: seq<Entry<K>>): nat
  {
    if |m| == 0 then 0 else m[0].count + SumCounts(m[1..])
  }

  lemma {:induction false} BumpSum<K>(m: seq<Entry<K>>, k: K)
    requires DistinctKeys(m)
    ensures SumCounts(Bump(m, k)) == SumCounts(m) + 1
    decreases |m|
  {
    if |m| > 0 && m[0].key != k {
      BumpSum(m[1..], k);
    }
  }

  /** The counts add up to the number of keys bumped. */
  lemma {:induction false} TallySum<K>(ks: seq<K>)
    ensures SumCounts(Tally(ks)) == |ks|
    decreases |ks|
  {
    if |ks| > 0 {
      TallySum(ks[..|ks| - 1]);
      BumpSum(Tally(ks[..|ks| - 1]), ks[|ks| - 1]);
    }
  }

  /** The map has one entry per distinct key. */
  lemma {:induction false} TallySize<K>(ks: seq<K>)
    ensures |Tally(ks)| == |set x | x in ks|
    decreases |ks|
  {
    if |ks| > 0 {
      var p := ks[..|ks| - 1];
      var x := ks[|ks| - 1];
      TallySize(p);
      assert ks == p + [x];
      assert (set y | y in ks) == (set y | y in p) + {x};
      TallyKeys(p, x);
      if x in p {
        assert (set y | y in ks) == (set y | y in p);
      } else {
        assert x !in (set y | y in p);
      }
    }
  }

  /** Sort key for "descending by count" comparators (`b[1] - a[1]`). */
  function ByCountDesc<K>(e: Entry<K>): int
  {
    -(e.count as int)
  }

  lemma {:induction false} LookupAt<K>(m: seq<Entry<K>>, i: nat)
    requires DistinctKeys(m) && i < |m|
    ensures Lookup(m, m[i].key) == m[i].count
    decreases |m|
  {
    if i > 0 {
      assert m[0].key != m[i].key;
      LookupAt(m[1..], i - 1);
    }
  }

  /** Every entry of the map holds its key's number of occurrences. */
  lemma TallyEntry<K>(ks: seq<K>, i: nat)
    requires i < |Tally(ks)|
    ensures Tally(ks)[i].count == Count(ks, Tally(ks)[i].key)
  {
    LookupAt(Tally(ks), i);
    TallyCounts(ks, Tally(ks)[i].key);
  }

  /** Sorting a map reorders its entries and keeps the total of the counts. */
  lemma {:induction false} SumCountsPermutation<K>(a: seq<Entry<K>>, key: Entry<K> -> int)
    ensures SumCounts(SortBy(a, key)) == SumCounts(a)
    decreases |a|
  {
    if |a| > 0 {
      SumCountsPermutation(a[1..], key);
      SumCountsInsert(a[0], SortBy(a[1..], key), key);
    }
  }

  lemma {:induction false} SumCountsInsert<K>(x: Entry<K>, s: seq<Entry<K>>, key: Entry<K> -> int)
    ensures SumCounts(Insert(x, s, key)) == x.count + SumCounts(s)
    decreases |s|
  {
    if |s| > 0 && key(x) > key(s[0]) {
      SumCountsInsert(x, s[1..], key);
      assert Insert(x, s, key)[1..] == Insert(x, s[1..], key);
    } else {
      assert Insert(x, s, key) == [x] + s;
      assert ([x] + s)[1..] == s;
    }
  }

  /** Every entry of a sorted tally still holds its key's number of occurrences. */
  lemma SortedTallyEntry<K>(ks: seq<K>, key: Entry<K> -> int, i: nat)
    requires i < |SortBy(Tally(ks), key)|
    ensures SortBy(Tally(ks), key)[i].count == Count(ks, SortBy(Tally(ks), key)[i].key)
  {
    var s := SortBy(Tally(ks), key);
    assert s[i] in multiset(Tally(ks));
    var j :| 0 <= j < |Tally(ks)| && Tally(ks)[j] == s[i];
    TallyEntry(ks, j);
  }

  /** With distinct keys no entry occurs twice. */
  lemma {:induction false} DistinctKeysMultiplicity<K>(m: seq<Entry<K>>, x: Entry<K>)
    requires DistinctKeys(m)
    ensures multiset(m)[x] <= 1
    decreases |m|
  {
    if |m| > 0 {
      assert m == [m[0]] + m[1..];
      DistinctKeysMultiplicity(m[1..], x);
      assert m[0] !in m[1..] by {
        forall k | 0 <= k < |m[1..]| ensures m[1..][k] != m[0] {
          assert m[1..][k].key == m[k + 1].key;
        }
      }
    }
  }

  lemma NoRepeat<T>(s: seq<T>, i: nat, j: nat)
    requires i < j < |s| && multiset(s)[s[i]] <= 1
    ensures s[i] != s[j]
  {
    assert s == s[..j] + s[j..];
    assert s[i] in s[..j] && s[j] in s[j..];
    assert multiset(s) == multiset(s[..j]) + multiset(s[j..]);
  }

  /** A permutation of entries has the same keys. */
  lemma PermutationSameKeys<K>(a: seq<Entry<K>>, b: seq<Entry<K>>, y: K)
    requires multiset(a) == multiset(b)
    ensures y in Keys(a) <==> y in Keys(b)
  {
    if y in Keys(a) {
      KeyCarries(a, b, y);
    }
    if y in Keys(b) {
      KeyCarries(b, a, y);
    }
  }

  lemma KeyCarries<K>(a: seq<Entry<K>>, b: seq<Entry<K>>, y: K)
    requires multiset(a) == multiset(b) && y in Keys(a)
    ensures y in Keys(b)
  {
    var i :| 0 <= i < |a| && Keys(a)[i] == y;
    assert a[i] in multiset(b);
    var j :| 0 <= j < |b| && b[j] == a[i];
    assert Keys(b)[j] == y;
  }

  lemma PermutationDistinctKeys<K>(a: seq<Entry<K>>, b: seq<Entry<K>>)
    requires multiset(a) == multiset(b) && DistinctKeys(a)
    ensures DistinctKeys(b)
  {
    forall i, j | 0 <= i < j < |b| ensures b[i].key != b[j].key {
      DistinctKeysMultiplicity(a, b[i]);
      NoRepeat(b, i, j);
      assert b[i] in multiset(a) && b[j] in multiset(a);
      var p :| 0 <= p < |a| && a[p] == b[i];
      var q :| 0 <= q < |a| && a[q] == b[j];
      assert p != q;
    }
  }
}
