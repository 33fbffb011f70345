/**
 * The collection aggregator: from the normalised records, the counts by year,
 * decade, format, country, label and artist, the number of distinct artists,
 * the median and mean year, and the top-N tables the charts draw.
 */
module Summary {
  import opened Wrappers
  import opened Text
  import opened Seqs
  import opened CountMap
  import opened Normalize

  /* ---------------- artist keys ---------------- */

  /**
   * `\s+\(.*?\)$` matches at `i`: whitespace, then `(` right after the whole
   * whitespace run, then anything but a line terminator up to a final `)`.
   */
  predicate TrailingGroupAt(s: string, i: nat)
  {
    && i < |s| && IsSpace(s[i])
    && var k := i + LeadingSpaces(s[i..]);
    && k + 1 < |s| && s[k] == '(' && s[|s| - 1] == ')'
    && forall j :: k < j < |s| - 1 ==> !IsLineTerminator(s[j])
  }

  /** Leftmost index at or after `from` where the trailing group matches. */
  function FindTrailingGroup(s: string, from: nat): (r: Option<nat>)
    requires from <= |s|
    ensures r.Some? ==> from <= r.value < |s| && TrailingGroupAt(s, r.value)
    ensures r.Some? ==> forall j :: from <= j < r.value ==> !TrailingGroupAt(s, j)
    ensures r.None? ==> forall j :: from <= j ==> !TrailingGroupAt(s, j)
    decreases |s| - from
  {
    if from == |s| then None
    else if TrailingGroupAt(s, from) then Some(from)
    else FindTrailingGroup(s, from + 1)
  }

  /**
   * The artist key: `a.replace(/\s+\(.*?\)$/, "")` drops a trailing
   * parenthesised group, from the leftmost place the pattern matches.
   */
  function ArtistKey(a: string): (r: string)
    ensures r <= a
    ensures r == a <==> forall i: nat :: !TrailingGroupAt(a, i)
    ensures r != a ==> TrailingGroupAt(a, |r|) && forall j :: 0 <= j < |r| ==> !TrailingGroupAt(a, j)
  {
    match FindTrailingGroup(a, 0)
    case Some(i) => a[..i]
    case None => a
  }

  /** A name `clean` returned has no group left, so its key is itself. */
  lemma ArtistKeyOfClean(a: string)
    requires NoParenPair(a)
    ensures ArtistKey(a) == a
  {
    forall i: nat
      ensures !TrailingGroupAt(a, i)
    {
      if i < |a| {
        var k := i + LeadingSpaces(a[i..]);
        if k + 1 < |a| && a[k] == '(' {
          assert a[|a| - 1] != ')';
        }
      }
    }
  }

  /** "Queen (2)" is counted under "Queen". */
  lemma ArtistKeyDropsGroup(name: string, inner: string)
    requires |name| > 0 && !IsSpace(name[|name| - 1])
    requires forall j :: 0 <= j < |inner| ==> !IsLineTerminator(inner[j])
    requires Lacks(name, '(')
    ensures ArtistKey(name + " (" + inner + ")") == name
  {
    var s := name + " (" + inner + ")";
    var n := |name|;
    assert s[n..] == " (" + inner + ")";
    assert LeadingSpaces(s[n..]) == 1 by {
      assert s[n..][1..][0] == '(';
    }
    assert TrailingGroupAt(s, n) by {
      forall j | n + 1 < j < |s| - 1 ensures !IsLineTerminator(s[j]) {
        assert s[j] == inner[j - n - 2];
      }
    }
    forall j | 0 <= j < n
      ensures !TrailingGroupAt(s, j)
    {
      if IsSpace(s[j]) {
        var k := j + LeadingSpaces(s[j..]);
        assert s[j] == name[j];
        assert k < n by {
          assert !IsSpace(s[n - 1]) && s[n - 1] == name[n - 1];
          assert s[j..][n - 1 - j] == s[n - 1];
        }
        assert s[k] == name[k];
      }
    }
    assert s[..n] == name;
  }

  /* ---------------- the keys each record contributes ---------------- */

  /** `if (it.year)`: the year is present and not 0. */
  predicate HasYear(r: Record)
  {
    r.year.Some? && r.year.value != 0
  }

  /** The years pushed onto `years`, in record order. */
  function Years(items: seq<Record>): (ys: seq<int>)
    ensures |ys| <= |items|
  {
    if |items| == 0 then []
    else (if HasYear(items[0]) then [items[0].year.value] else []) + Years(items[1..])
  }

  /** The `byYear` keys: `String(it.year)`. */
  function YearKeys(items: seq<Record>): (ks: seq<string>)
    ensures |ks| == |Years(items)|
    ensures forall i :: 0 <= i < |ks| ==> ks[i] == IntToString(Years(items)[i])
  {
    if |items| == 0 then []
    else (if HasYear(items[0]) then [IntToString(items[0].year.value)] else []) + YearKeys(items[1..])
  }

  function DecadeKeys(items: seq<Record>): seq<string>
  {
    if |items| == 0 then []
    else
      var d := items[0].decade;
      (if d.Some? && d.value != "" then [d.value] else []) + DecadeKeys(items[1..])
  }

  function FormatKeys(items: seq<Record>): seq<string>
  {
    if |items| == 0 then [] else items[0].formats + FormatKeys(items[1..])
  }

  function LabelKeys(items: seq<Record>): seq<string>
  {
    if |items| == 0 then [] else items[0].labels + LabelKeys(items[1..])
  }

  function CountryKeys(items: seq<Record>): seq<string>
  {
    if |items| == 0 then []
    else
      var c := items[0].country;
      (if c.Some? && c.value != "" then [c.value] else []) + CountryKeys(items[1..])
  }

  function MapArtistKey(names: seq<string>): (ks: seq<string>)
    ensures |ks| == |names| && forall i :: 0 <= i < |names| ==> ks[i] == ArtistKey(names[i])
  {
    if |names| == 0 then [] else [ArtistKey(names[0])] + MapArtistKey(names[1..])
  }

  function ArtistKeys(items: seq<Record>): seq<string>
  {
    if |items| == 0 then [] else MapArtistKey(items[0].artists) + ArtistKeys(items[1..])
  }

  /* ---------------- orderings ---------------- */

  /** `parseInt(key)`: byYear and byDecade keys start with their year. */
  function NumericKey(e: Entry<string>): int
  {
    ParseInt(e.key).GetOr(0)
  }

  function Identity(y: int): int
  {
    y
  }

  /** `sortMap(map, cmp)`: entries sorted by a numeric comparator. */
  function SortByKey(m: seq<Entry<string>>): (r: seq<Entry<string>>)
    ensures multiset(r) == multiset(m)
    ensures SortedBy(r, NumericKey)
  {
    SortBy(m, NumericKey)
  }

  /**
   * `topN(map, n)`: the `n` entries with the highest counts, in descending
   * order of count; entries with equal counts keep their map order.
   */
  function TopN<K>(m: seq<Entry<K>>, n: nat): (r: seq<Entry<K>>)
    ensures |r| == if |m| < n then |m| else n
    ensures multiset(r) <= multiset(m)
    ensures forall i, j :: 0 <= i < j < |r| ==> r[i].count >= r[j].count
  {
    var s := SortBy(m, ByCountDesc);
    TakeSorted(s, ByCountDesc, n);
    Take(s, n)
  }

  /** No entry left out of the top N has a higher count than one kept. */
  lemma TopNDominates<K>(m: seq<Entry<K>>, n: nat, j: nat, i: nat)
    requires j < |m| && i < |TopN(m, n)|
    requires m[j] !in TopN(m, n)
    ensures m[j].count <= TopN(m, n)[i].count
  {
    var s := SortBy(m, ByCountDesc);
    var r := TopN(m, n);
    assert m[j] in multiset(s);
    var p :| 0 <= p < |s| && s[p] == m[j];
    assert r == Take(s, n);
    assert p >= |r|;
    assert r[i] == s[i];
    assert ByCountDesc(s[i]) <= ByCountDesc(s[p]);
  }

  /** The top N of a map is ordered by count among entries of equal count as the map was. */
  lemma {:induction false} TopNStable<K>(m: seq<Entry<K>>, c: nat)
    ensures KeyClass(SortBy(m, ByCountDesc), ByCountDesc, -(c as int)) == KeyClass(m, ByCountDesc, -(c as int))
  {
    SortByStable(m, ByCountDesc, -(c as int));
  }

  /**
   * `topN(sortMap(m, byCountDesc), n)` sorts twice by the same comparator;
   * the second sort leaves the first's order unchanged.
   */
  lemma SortTwiceByCount<K>(m: seq<Entry<K>>)
    ensures SortBy(SortBy(m, ByCountDesc), ByCountDesc) == SortBy(m, ByCountDesc)
  {
    SortBySorted(SortBy(m, ByCountDesc), ByCountDesc);
  }

  /* ---------------- median and mean ---------------- */

  /** `years[Math.floor(years.length / 2)]` after sorting ascending. */
  function MedianYear(years: seq<int>): (r: Option<int>)
    ensures r.None? <==> |years| == 0
    ensures r.Some? ==> r.value in multiset(years)
  {
    if |years| == 0 then None
    else
      var s := SortBy(years, Identity);
      assert s[|s| / 2] in multiset(s);
      Some(s[|s| / 2])
  }

  /** `y < m`, as a filter. */
  function Earlier(m: int): int -> bool
  {
    (y: int) => y < m
  }

  /** `y <= m`, as a filter. */
  function NoLater(m: int): int -> bool
  {
    (y: int) => y <= m
  }

  /**
   * The median splits the years: at most half of them (rounded down) are
   * earlier, and more than half are no later.
   */
  lemma MedianSplits(years: seq<int>)
    requires |years| > 0
    ensures var m := MedianYear(years).value;
            |Filter(Earlier(m), years)| <= |years| / 2
            && |Filter(NoLater(m), years)| > |years| / 2
  {
    var s := SortBy(years, Identity);
    var k := |s| / 2;
    var m := s[k];
    assert MedianYear(years) == Some(m);
    SortedEarlier(s, k);
    SortedNoLater(s, k);
    FilterSortLength(Earlier(m), years, Identity);
    FilterSortLength(NoLater(m), years, Identity);
  }

  lemma SortedAt(s: seq<int>, i: nat, j: nat)
    requires i <= j < |s| && SortedBy(s, Identity)
    ensures s[i] <= s[j]
  {
    if i < j {
      assert Identity(s[i]) <= Identity(s[j]);
    }
  }

  /** In an ascending sequence, fewer than `k + 1` elements are below the one at `k`. */
  lemma SortedEarlier(s: seq<int>, k: nat)
    requires k < |s| && SortedBy(s, Identity)
    ensures |Filter(Earlier(s[k]), s)| <= k
  {
    var less := Earlier(s[k]);
    var before, after := s[..k], s[k..];
    assert s == before + after;
    FilterAppend(less, before, after);
    forall i | 0 <= i < |after|
      ensures !less(after[i])
    {
      SortedAt(s, k, k + i);
    }
    FilterNone(less, after);
  }

  /** In an ascending sequence, at least `k + 1` elements are at most the one at `k`. */
  lemma SortedNoLater(s: seq<int>, k: nat)
    requires k < |s| && SortedBy(s, Identity)
    ensures |Filter(NoLater(s[k]), s)| >= k + 1
  {
    var atMost := NoLater(s[k]);
    var upTo, beyond := s[..k + 1], s[k + 1..];
    assert s == upTo + beyond;
    FilterAppend(atMost, upTo, beyond);
    forall i | 0 <= i < |upTo|
      ensures atMost(upTo[i])
    {
      SortedAt(s, i, k);
    }
    FilterAll(atMost, upTo);
  }

  function Sum(ys: seq<int>): int
  {
    if |ys| == 0 then 0 else ys[0] + Sum(ys[1..])
  }

  /** `Math.round(x * 10) / 10`, with `Math.round` rounding halves up. */
  function RoundTenth(x: real): (r: real)
    ensures x - 0.05 < r <= x + 0.05
  {
    ((x * 10.0 + 0.5).Floor as real) / 10.0
  }

  /** The mean year rounded to one decimal. */
  function AvgYear(years: seq<int>): (r: Option<real>)
    ensures r.None? <==> |years| == 0
    ensures r.Some? ==> var mean := Sum(years) as real / |years| as real;
                        mean - 0.05 < r.value <= mean + 0.05
  {
    if |years| == 0 then None else Some(RoundTenth(Sum(years) as real / |years| as real))
  }

  /* ---------------- the summary ---------------- */

  datatype Stats = Stats(
    total: nat,
    uniqueArtists: nat,
    medianYear: Option<int>,
    avgYear: Option<real>,
    byYear: seq<Entry<string>>,
    byDecade: seq<Entry<string>>,
    byFormat: seq<Entry<string>>,
    byCountry: seq<Entry<string>>,
    topLabels: seq<Entry<string>>,
    topArtists: seq<Entry<string>>)

  const TopCount: nat := 15

  /** `summarize`. */
  function Summarize(items: seq<Record>): (st: Stats)
    ensures st.total == |items|
    ensures st.medianYear.None? <==> Years(items) == []
    ensures st.uniqueArtists == |Tally(ArtistKeys(items))|
    ensures multiset(st.byYear) == multiset(Tally(YearKeys(items))) && SortedBy(st.byYear, NumericKey)
    ensures multiset(st.byDecade) == multiset(Tally(DecadeKeys(items))) && SortedBy(st.byDecade, NumericKey)
    ensures st.byFormat == Tally(FormatKeys(items))
    ensures |st.byCountry| <= TopCount && |st.topLabels| <= TopCount && |st.topArtists| <= TopCount
    ensures st.medianYear == MedianYear(Years(items)) && st.avgYear == AvgYear(Years(items))
    ensures st.byCountry == TopN(Tally(CountryKeys(items)), TopCount)
    ensures st.topLabels == TopN(Tally(LabelKeys(items)), TopCount)
    ensures st.topArtists == TopN(Tally(ArtistKeys(items)), TopCount)
  {
    var years := Years(items);
    var artists := ArtistKeys(items);
    TallySize(artists);
    SortTwiceByCount(Tally(LabelKeys(items)));
    SortTwiceByCount(Tally(artists));
    Stats(
      |items|,
      |set k | k in artists|,
      MedianYear(years),
      AvgYear(years),
      SortByKey(Tally(YearKeys(items))),
      SortByKey(Tally(DecadeKeys(items))),
      Tally(FormatKeys(items)),
      TopN(Tally(CountryKeys(items)), TopCount),
      TopN(SortBy(Tally(LabelKeys(items)), ByCountDesc), TopCount),
      TopN(SortBy(Tally(ArtistKeys(items)), ByCountDesc), TopCount))
  }

  /** Every count in a summary table is its key's number of occurrences. */
  lemma SummaryCounts(items: seq<Record>, i: nat)
    requires i < |Summarize(items).byYear|
    ensures Summarize(items).byYear[i].count == Count(YearKeys(items), Summarize(items).byYear[i].key)
  {
    assert Summarize(items).byYear == SortBy(Tally(YearKeys(items)), NumericKey);
    SortedTallyEntry(YearKeys(items), NumericKey, i);
  }

  /** The year table accounts for every record that has a year. */
  lemma ByYearTotal(items: seq<Record>)
    ensures SumCounts(Summarize(items).byYear) == |Years(items)|
  {
    SumCountsPermutation(Tally(YearKeys(items)), NumericKey);
    TallySum(YearKeys(items));
  }

  /** Year keys read back as the years they were written from. */
  lemma YearKeysParse(items: seq<Record>, i: nat)
    requires i < |YearKeys(items)|
    ensures ParseInt(YearKeys(items)[i]) == Some(Years(items)[i])
  {
    ParseIntToString(Years(items)[i]);
  }

  /* ---------------- chart rows ---------------- */

  datatype Point = Point(name: string, value: nat)

  /** `toChart`: one `{name, value}` row per entry, in map order. */
  function ToChart(m: seq<Entry<string>>): (r: seq<Point>)
    ensures |r| == |m|
    ensures forall i :: 0 <= i < |m| ==> r[i] == Point(m[i].key, m[i].count)
  {
    seq(|m|, i requires 0 <= i < |m| => Point(m[i].key, m[i].count))
  }
}
