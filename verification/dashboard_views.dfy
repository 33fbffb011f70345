/**
 * What the vinyl dashboard shows for a filter state: artist names folded to
 * a comparison key, the rows the filters let through, the year histogram,
 * the label and artist tallies, the ten longest tracks, and the toggles
 * that add a label or an artist to the selection or take it out.
 */
module DashboardViews {
  import opened Wrappers
  import opened Text
  import opened Seqs
  import opened CountMap
  import Normalize
  import opened Dashboard

  /* ---------------- artist names ---------------- */

  /** Index of the last ',' in `t`. */
  function LastComma(t: string): (r: Option<nat>)
    ensures r.None? ==> forall i :: 0 <= i < |t| ==> t[i] != ','
    ensures r.Some? ==> r.value < |t| && t[r.value] == ','
    ensures r.Some? ==> forall i :: r.value < i < |t| ==> t[i] != ','
  {
    if |t| == 0 then None
    else if t[|t| - 1] == ',' then Some(|t| - 1)
    else
      var p := t[..|t| - 1];
      assert forall i :: 0 <= i < |p| ==> p[i] == t[i];
      LastComma(p)
  }

  /** "The", "A" or "An", in any letter case. */
  predicate IsArticle(w: string)
  {
    var l := Lower(w);
    l == "the" || l == "a" || l == "an"
  }

  /**
   * The match of `^(.*),\s*(The|A|An)$` (ignoring case) on a trimmed name:
   * the text before the last comma, and an article that follows it after
   * optional whitespace and ends the name. The greedy `(.*)` cannot cross a
   * line break.
   */
  function ArticleSplit(t: string): Option<(string, string)>
  {
    match LastComma(t)
    case None => None
    case Some(k) =>
      var rest := t[k + 1..];
      var w := rest[LeadingSpaces(rest)..];
      if IsArticle(w) && Normalize.NoLineTerminators(t[..k]) then Some((t[..k], w))
      else None
  }

  /** The name is cut at a comma, whitespace and an article that ends it. */
  lemma CommaCut(t: string, k: nat, j: nat)
    requires k < |t| && t[k] == ','
    requires k + 1 + j <= |t|
    requires forall i :: k + 1 <= i < k + 1 + j ==> IsSpace(t[i])
    ensures t == t[..k] + "," + t[k + 1..k + 1 + j] + t[k + 1 + j..]
    ensures AllSpace(t[k + 1..k + 1 + j])
  {
  }

  /** Whatever matches has the shape "<p>,<spaces><article>". */
  lemma {:induction false} ArticleSplitSound(t: string)
    requires ArticleSplit(t).Some?
    ensures var (p, w) := ArticleSplit(t).value;
            && |p| + 1 + |w| <= |t|
            && t == p + "," + t[|p| + 1..|t| - |w|] + w
            && AllSpace(t[|p| + 1..|t| - |w|])
            && IsArticle(w) && Normalize.NoLineTerminators(p)
  {
    var k := LastComma(t).value;
    var rest := t[k + 1..];
    var j := LeadingSpaces(rest);
    assert rest[j..] == t[k + 1 + j..];
    assert forall i :: k + 1 <= i < k + 1 + j ==> t[i] == rest[i - k - 1];
    CommaCut(t, k, j);
    assert ArticleSplit(t).value == (t[..k], t[k + 1 + j..]);
  }

  /** An article is made of letters only. */
  lemma ArticleLetters(w: string)
    requires IsArticle(w)
    ensures |w| >= 1
    ensures forall i :: 0 <= i < |w| ==> w[i] != ',' && !IsSpace(w[i])
  {
    var l := Lower(w);
    forall i | 0 <= i < |w| ensures w[i] != ',' && !IsSpace(w[i]) {
      assert l[i] == LowerChar(w[i]);
      assert l[i] in "thean";
    }
  }

  lemma {:induction false} LastCommaAt(t: string, k: nat)
    requires k < |t| && t[k] == ','
    requires forall i :: k < i < |t| ==> t[i] != ','
    ensures LastComma(t) == Some(k)
    decreases |t|
  {
    if k < |t| - 1 {
      var p := t[..|t| - 1];
      LastCommaAt(p, k);
    }
  }

  /**
   * Every name of the form "<p>,<spaces><article>" matches, with `p` and the
   * article as the two groups.
   */
  lemma ArticleSplitMatches(p: string, sp: string, w: string)
    requires AllSpace(sp) && IsArticle(w) && Normalize.NoLineTerminators(p)
    ensures ArticleSplit(p + "," + sp + w) == Some((p, w))
  {
    var t := p + "," + sp + w;
    ArticleLetters(w);
    NoCommaAfter(p, sp, w);
    LastCommaAt(t, |p|);
    assert t[|p| + 1..] == sp + w;
    assert t[..|p|] == p;
    ArticleSplitAt(t, |p|, sp, w);
  }

  lemma ArticleSplitAt(t: string, k: nat, sp: string, w: string)
    requires LastComma(t) == Some(k) && t[k + 1..] == sp + w
    requires AllSpace(sp) && IsArticle(w) && Normalize.NoLineTerminators(t[..k])
    requires |w| > 0 && !IsSpace(w[0])
    ensures ArticleSplit(t) == Some((t[..k], w))
  {
    var rest := t[k + 1..];
    LeadingSpacesAfterSpaces(sp, w);
    assert rest[|sp|..] == w;
  }

  lemma NoCommaAfter(p: string, sp: string, w: string)
    requires AllSpace(sp) && forall i :: 0 <= i < |w| ==> w[i] != ','
    ensures var t := p + "," + sp + w;
      |p| < |t| && t[|p|] == ',' && forall i :: |p| < i < |t| ==> t[i] != ','
  {
    var t := p + "," + sp + w;
    forall i | |p| < i < |t| ensures t[i] != ',' {
      if i < |p| + 1 + |sp| {
        assert t[i] == sp[i - |p| - 1];
      } else {
        assert t[i] == w[i - |p| - 1 - |sp|];
      }
    }
  }

  /** A name without a comma has nothing to move. */
  lemma ArticleSplitNoComma(t: string)
    requires forall i :: 0 <= i < |t| ==> t[i] != ','
    ensures ArticleSplit(t).None?
  {
  }

  /** The replacement `${article} ${rest}` when the pattern matches. */
  function MoveArticle(t: string): (r: string)
    ensures (forall i :: 0 <= i < |t| ==> t[i] != ',') ==> r == t
    ensures |r| <= |t|
  {
    ArticleSplitShape(t);
    match ArticleSplit(t)
    case None => t
    case Some((p, w)) => w + " " + p
  }

  /**
   * Without a comma nothing moves, and collapsing the trimmed name leaves it
   * trimmed.
   */
  lemma NoCommaNoMove(s: string)
    ensures (forall i :: 0 <= i < |s| ==> s[i] != ',') ==>
              Trim(Collapse(MoveArticle(Trim(s)))) == Collapse(Trim(s))
  {
    if forall i :: 0 <= i < |s| ==> s[i] != ',' {
      var t := Trim(s);
      assert forall i :: 0 <= i < |t| ==> t[i] != ',' by {
        forall i | 0 <= i < |t| ensures t[i] != ',' {
          assert t[i] == s[LeadingSpaces(s) + i];
        }
      }
      ArticleSplitNoComma(t);
      assert Trimmed(Collapse(t));
    }
  }

  lemma ArticleSplitShape(t: string)
    ensures (forall i :: 0 <= i < |t| ==> t[i] != ',') ==> ArticleSplit(t).None?
    ensures ArticleSplit(t).Some? ==> |ArticleSplit(t).value.0| + 1 + |ArticleSplit(t).value.1| <= |t|
  {
    if forall i :: 0 <= i < |t| ==> t[i] != ',' {
      ArticleSplitNoComma(t);
    }
    if ArticleSplit(t).Some? {
      ArticleSplitSound(t);
    }
  }

  /** "<p>, <article>" becomes "<article> <p>": the article moves to the front. */
  lemma MoveArticleFront(p: string, sp: string, w: string)
    requires AllSpace(sp) && IsArticle(w) && Normalize.NoLineTerminators(p)
    ensures MoveArticle(p + "," + sp + w) == w + " " + p
  {
    ArticleSplitMatches(p, sp, w);
  }

  /** Lower-casing keeps every whitespace character where it was. */
  lemma LowerKeepsSpacing(t: string)
    requires Trimmed(t) && SingleSpaced(t)
    ensures Trimmed(Lower(t)) && SingleSpaced(Lower(t)) && IsLowerCase(Lower(t))
  {
    var l := Lower(t);
    forall i | 0 <= i < |l| && IsSpace(l[i]) ensures l[i] == ' ' {
      assert IsSpace(t[i]);
    }
    forall i, j | 0 <= i < |l| && 0 <= j < |l| && j == i + 1 && IsSpace(l[i]) ensures !IsSpace(l[j]) {
      assert IsSpace(t[i]);
    }
  }

  /**
   * `normalizeArtist`: the key artists are compared by. A trailing article is
   * moved to the front, whitespace runs become one space, and the result is
   * trimmed and lower-cased; "" stays "".
   */
  function NormalizeArtist(s: string): (r: string)
    ensures IsLowerCase(r) && Trimmed(r) && SingleSpaced(r)
    ensures s == "" ==> r == ""
    ensures (forall i :: 0 <= i < |s| ==> s[i] != ',') ==> r == Lower(Collapse(Trim(s)))
  {
    if s == "" then ""
    else
      NoCommaNoMove(s);
      ArtistKeyShape(MoveArticle(Trim(s)));
      Lower(Trim(Collapse(MoveArticle(Trim(s)))))
  }

  /** Collapsing, trimming and lower-casing give a lower-case, single-spaced key. */
  lemma ArtistKeyShape(m: string)
    ensures var r := Lower(Trim(Collapse(m)));
            IsLowerCase(r) && Trimmed(r) && SingleSpaced(r)
  {
    var c := Collapse(m);
    CollapseSingleSpaced(m);
    var t := Trim(c);
    Normalize.SingleSpacedSlice(c, LeadingSpaces(c), LeadingSpaces(c) + |t|);
    LowerKeepsSpacing(t);
  }

  lemma NormalizeArtistArticle(p: string, w: string)
    requires |p| > 0 && Trimmed(p) && Normalize.NoLineTerminators(p)
    requires forall i :: 0 <= i < |p| ==> p[i] != ','
    requires IsArticle(w)
    ensures NormalizeArtist(p + ", " + w) == NormalizeArtist(w + " " + p)
  {
    MoveArticleBoth(p, w);
  }

  /** "p, The" moves to "The p", which stays where it is. */
  lemma MoveArticleBoth(p: string, w: string)
    requires |p| > 0 && Trimmed(p) && Normalize.NoLineTerminators(p)
    requires forall i :: 0 <= i < |p| ==> p[i] != ','
    requires IsArticle(w)
    ensures MoveArticle(Trim(p + ", " + w)) == w + " " + p
    ensures MoveArticle(Trim(w + " " + p)) == w + " " + p
  {
    ArticleLetters(w);
    var a := p + ", " + w;
    var b := w + " " + p;
    assert Trimmed(a) && Trimmed(b);
    assert a == p + "," + " " + w;
    ArticleSplitMatches(p, " ", w);
    ArticleFrontNoComma(p, w);
    ArticleSplitNoComma(b);
  }

  lemma ArticleFrontNoComma(p: string, w: string)
    requires forall i :: 0 <= i < |p| ==> p[i] != ','
    requires IsArticle(w)
    ensures var b := w + " " + p;
            forall i :: 0 <= i < |b| ==> b[i] != ','
  {
    ArticleLetters(w);
    var b := w + " " + p;
    forall i | 0 <= i < |b| ensures b[i] != ',' {
      if i < |w| {
        assert b[i] == w[i];
      } else if i > |w| {
        assert b[i] == p[i - |w| - 1];
      }
    }
  }


  /* ---------------- the row filter ---------------- */

  /** JavaScript's `a < b` for an integer `a`: false when `b` is `NaN`. */
  predicate Below(a: int, b: Num)
  {
    b.Int? && a < b.n
  }

  /** JavaScript's `a > b` for an integer `a`: false when `b` is `NaN`. */
  predicate Above(a: int, b: Num)
  {
    b.Int? && a > b.n
  }

  function ArtistSelection(qs: State): set<string>
  {
    set a | a in qs.art :: NormalizeArtist(a)
  }

  function LabelSelection(qs: State): set<string>
  {
    set l | l in qs.lab
  }

  /** The test `filtered` applies to each row, written as the code writes it. */
  predicate Keep(qs: State, d: Row)
  {
    && !(d.year.Some? && (Below(d.year.value, qs.ymin) || Above(d.year.value, qs.ymax)))
    && !(d.secs.Some? && qs.dmax.Int? && (d.secs.value as real) / 60.0 > qs.dmax.n as real)
    && !(|ArtistSelection(qs)| != 0 && NormalizeArtist(d.artist) !in ArtistSelection(qs))
    && !(|LabelSelection(qs)| != 0 && LabelSelection(qs) * (set l | l in d.labels) == {})
  }

  /**
   * What a listed row satisfies: a known year lies in the range (a `NaN`
   * bound does not constrain), a known length is at most `dmax` minutes,
   * the artist matches a selected one by key, and some label is selected.
   * An empty selection lets every row through.
   */
  predicate Admits(qs: State, d: Row)
  {
    && (d.year.None? || ((qs.ymin.NaN? || qs.ymin.n <= d.year.value) && (qs.ymax.NaN? || d.year.value <= qs.ymax.n)))
    && (d.secs.None? || qs.dmax.NaN? || d.secs.value <= 60 * qs.dmax.n)
    && (qs.art == [] || exists i :: 0 <= i < |qs.art| && NormalizeArtist(qs.art[i]) == NormalizeArtist(d.artist))
    && (qs.lab == [] || exists i :: 0 <= i < |qs.lab| && qs.lab[i] in d.labels)
  }

  lemma {:induction false} KeepAdmits(qs: State, d: Row)
    ensures Keep(qs, d) <==> Admits(qs, d)
  {
    if d.secs.Some? && qs.dmax.Int? {
      MinutesAbove(d.secs.value, qs.dmax.n);
    }
    ArtistClause(qs, d);
    LabelClause(qs, d);
  }

  /** `secs / 60 > m` in real arithmetic says the same as `secs > 60 * m`. */
  lemma MinutesAbove(secs: int, m: int)
    ensures (secs as real) / 60.0 > m as real <==> secs > 60 * m
  {
    var q := (secs as real) / 60.0;
    assert q * 60.0 == secs as real;
  }

  /** The artist test rejects a row exactly when a selection exists and none matches its key. */
  lemma ArtistClause(qs: State, d: Row)
    ensures (|ArtistSelection(qs)| != 0 && NormalizeArtist(d.artist) !in ArtistSelection(qs)) <==>
            !(qs.art == [] || exists i :: 0 <= i < |qs.art| && NormalizeArtist(qs.art[i]) == NormalizeArtist(d.artist))
  {
    if qs.art != [] {
      assert NormalizeArtist(qs.art[0]) in ArtistSelection(qs);
    }
  }

  /** The label test rejects a row exactly when a selection exists and none of its labels is selected. */
  lemma LabelClause(qs: State, d: Row)
    ensures (|LabelSelection(qs)| != 0 && LabelSelection(qs) * (set l | l in d.labels) == {}) <==>
            !(qs.lab == [] || exists i :: 0 <= i < |qs.lab| && qs.lab[i] in d.labels)
  {
    if qs.lab != [] {
      assert qs.lab[0] in LabelSelection(qs);
    }
    var labs := set l | l in d.labels;
    if LabelSelection(qs) * labs != {} {
      var l :| l in LabelSelection(qs) * labs;
      var i :| 0 <= i < |qs.lab| && qs.lab[i] == l;
    }
    if exists i :: 0 <= i < |qs.lab| && qs.lab[i] in d.labels {
      var i :| 0 <= i < |qs.lab| && qs.lab[i] in d.labels;
      assert qs.lab[i] in LabelSelection(qs) * labs;
    }
  }

  function KeepFor(qs: State): Row -> bool
  {
    d => Keep(qs, d)
  }

  /**
   * `filtered`: the rows the filters let through, in data order. Exactly
   * the rows that satisfy `Admits` are kept, each as often as it occurs.
   */
  function Filtered(data: seq<Row>, qs: State): (r: seq<Row>)
    ensures IsSubsequence(r, data)
    ensures forall i :: 0 <= i < |r| ==> Admits(qs, r[i])
    ensures forall i :: 0 <= i < |data| && Admits(qs, data[i]) ==> data[i] in r
    ensures forall x :: multiset(r)[x] == if Admits(qs, x) then multiset(data)[x] else 0
  {
    FilterIsSubsequence(KeepFor(qs), data);
    var r := Filter(KeepFor(qs), data);
    assert forall x :: multiset(r)[x] == if Admits(qs, x) then multiset(data)[x] else 0 by {
      forall x ensures multiset(r)[x] == if Admits(qs, x) then multiset(data)[x] else 0 {
        FilterMultiplicity(KeepFor(qs), data, x);
        KeepAdmits(qs, x);
      }
    }
    assert forall i :: 0 <= i < |r| ==> Admits(qs, r[i]) by {
      forall i | 0 <= i < |r| ensures Admits(qs, r[i]) {
        KeepAdmits(qs, r[i]);
      }
    }
    assert forall i :: 0 <= i < |data| && Admits(qs, data[i]) ==> data[i] in r by {
      forall i | 0 <= i < |data| && Admits(qs, data[i]) ensures data[i] in r {
        KeepAdmits(qs, data[i]);
      }
    }
    r
  }

  /* ---------------- year histogram ---------------- */

  /** The known years of the rows, in row order. */
  function RowYears(rows: seq<Row>): (ys: seq<int>)
    ensures |ys| <= |rows|
  {
    if |rows| == 0 then []
    else (if rows[0].year.Some? then [rows[0].year.value] else []) + RowYears(rows[1..])
  }

  predicate HasYear(d: Row)
  {
    d.year.Some?
  }

  lemma {:induction false} RowYearsCount(rows: seq<Row>)
    ensures |RowYears(rows)| == |Filter(HasYear, rows)|
    decreases |rows|
  {
    if |rows| > 0 {
      RowYearsCount(rows[1..]);
    }
  }

  function YearOf(e: Entry<int>): int
  {
    e.key
  }

  /** `yearBuckets`: one bucket per year that occurs, counting its rows. */
  function YearBuckets(rows: seq<Row>): (r: seq<Entry<int>>)
    ensures multiset(r) == multiset(Tally(RowYears(rows)))
    ensures SortedBy(r, YearOf)
  {
    SortBy(Tally(RowYears(rows)), YearOf)
  }

  /** The buckets are in strictly ascending year order. */
  lemma YearBucketsAscending(rows: seq<Row>)
    ensures var r := YearBuckets(rows);
            forall i, j :: 0 <= i < j < |r| ==> r[i].key < r[j].key
  {
    var r := YearBuckets(rows);
    PermutationDistinctKeys(Tally(RowYears(rows)), r);
    StrictlyAscending(r);
  }

  lemma StrictlyAscending(r: seq<Entry<int>>)
    requires DistinctKeys(r) && SortedBy(r, YearOf)
    ensures forall i, j :: 0 <= i < j < |r| ==> r[i].key < r[j].key
  {
    forall i, j | 0 <= i < j < |r| ensures r[i].key < r[j].key {
      assert YearOf(r[i]) <= YearOf(r[j]);
    }
  }

  /** The counts add up to the number of rows that have a year. */
  lemma YearBucketsTotal(rows: seq<Row>)
    ensures SumCounts(YearBuckets(rows)) == |Filter(HasYear, rows)|
  {
    SumCountsPermutation(Tally(RowYears(rows)), YearOf);
    TallySum(RowYears(rows));
    RowYearsCount(rows);
  }

  /** There is a bucket for a year exactly when some row has that year. */
  lemma YearBucketsKeys(rows: seq<Row>, y: int)
    ensures y in Keys(YearBuckets(rows)) <==> y in RowYears(rows)
  {
    TallyKeys(RowYears(rows), y);
    PermutationSameKeys(Tally(RowYears(rows)), YearBuckets(rows), y);
  }

  /** Each bucket counts the rows of its year. */
  lemma YearBucketCount(rows: seq<Row>, i: nat)
    requires i < |YearBuckets(rows)|
    ensures YearBuckets(rows)[i].count == Count(RowYears(rows), YearBuckets(rows)[i].key)
  {
    SortedTallyEntry(RowYears(rows), YearOf, i);
  }

  /* ---------------- label tally ---------------- */

  /** Every label of every row, in order. */
  function AllLabels(rows: seq<Row>): (ls: seq<string>)
    ensures forall i, k :: 0 <= i < |rows| && 0 <= k < |rows[i].labels| ==> rows[i].labels[k] in ls
  {
    if |rows| == 0 then []
    else
      var rest := AllLabels(rows[1..]);
      assert forall i :: 1 <= i < |rows| ==> rows[i] == rows[1..][i - 1];
      rows[0].labels + rest
  }

  /**
   * `labelCounts`: how many times each label occurs, most frequent first;
   * labels with equal counts keep first-seen order.
   */
  function LabelCounts(rows: seq<Row>): (r: seq<Entry<string>>)
    ensures multiset(r) == multiset(Tally(AllLabels(rows)))
    ensures SortedBy(r, ByCountDesc)
    ensures DistinctKeys(r)
  {
    var r := SortBy(Tally(AllLabels(rows)), ByCountDesc);
    PermutationDistinctKeys(Tally(AllLabels(rows)), r);
    r
  }

  /** Each label's count is its number of occurrences. */
  lemma LabelCountsEntry(rows: seq<Row>, i: nat)
    requires i < |LabelCounts(rows)|
    ensures LabelCounts(rows)[i].count == Count(AllLabels(rows), LabelCounts(rows)[i].key)
  {
    SortedTallyEntry(AllLabels(rows), ByCountDesc, i);
  }

  /* ---------------- artist tally ---------------- */

  /** One artist: the key, the longest spelling seen and the number of rows. */
  datatype ArtistTotal = ArtistTotal(norm: string, name: string, count: nat)

  function CountsOf(m: seq<ArtistTotal>): (r: seq<Entry<string>>)
    ensures |r| == |m|
    ensures forall i :: 0 <= i < |m| ==> r[i] == Entry(m[i].norm, m[i].count)
  {
    if |m| == 0 then [] else [Entry(m[0].norm, m[0].count)] + CountsOf(m[1..])
  }

  /**
   * One row's contribution: a new key starts at one with the row's name; a
   * known key counts one more and keeps the longer of the two names.
   */
  function AddArtist(m: seq<ArtistTotal>, norm: string, artist: string): (r: seq<ArtistTotal>)
    requires DistinctKeys(CountsOf(m))
    ensures CountsOf(r) == Bump(CountsOf(m), norm)
  {
    if |m| == 0 then [ArtistTotal(norm, if artist != "" then artist else norm, 1)]
    else if m[0].norm == norm then
      [ArtistTotal(norm, if |artist| > |m[0].name| then artist else m[0].name, m[0].count + 1)] + m[1..]
    else
      assert CountsOf(m[1..]) == CountsOf(m)[1..];
      [m[0]] + AddArtist(m[1..], norm, artist)
  }

  /** Entries of other keys are left alone by one row. */
  lemma {:induction false} AddArtistOther(m: seq<ArtistTotal>, norm: string, artist: string, i: nat)
    requires DistinctKeys(CountsOf(m))
    requires i < |m| && m[i].norm != norm
    ensures i < |AddArtist(m, norm, artist)| && AddArtist(m, norm, artist)[i] == m[i]
    decreases |m|
  {
    if m[0].norm != norm && i > 0 {
      var t := m[1..];
      assert CountsOf(t) == CountsOf(m)[1..];
      assert t[i - 1] == m[i];
      AddArtistOther(t, norm, artist, i - 1);
    }
  }

  /** The entry of a known key keeps its name unless the row's spelling is strictly longer. */
  lemma {:induction false} AddArtistKnown(m: seq<ArtistTotal>, norm: string, artist: string, j: nat)
    requires DistinctKeys(CountsOf(m))
    requires j < |m| && m[j].norm == norm
    ensures var r := AddArtist(m, norm, artist);
            && |r| == |m| && r[j].norm == norm
            && r[j].name == (if |artist| > |m[j].name| then artist else m[j].name)
    decreases |m|
  {
    if m[0].norm != norm {
      var t := m[1..];
      assert CountsOf(t) == CountsOf(m)[1..];
      assert t[j - 1] == m[j];
      AddArtistKnown(t, norm, artist, j - 1);
    }
  }

  /** A new key is appended with the row's spelling, or the key when that is empty. */
  lemma {:induction false} AddArtistNew(m: seq<ArtistTotal>, norm: string, artist: string)
    requires DistinctKeys(CountsOf(m))
    requires forall i :: 0 <= i < |m| ==> m[i].norm != norm
    ensures var r := AddArtist(m, norm, artist);
            |r| == |m| + 1 && r[|m|] == ArtistTotal(norm, if artist != "" then artist else norm, 1)
    decreases |m|
  {
    if |m| > 0 {
      var t := m[1..];
      assert CountsOf(t) == CountsOf(m)[1..];
      assert forall k :: 0 <= k < |t| ==> t[k] == m[k + 1];
      AddArtistNew(t, norm, artist);
    }
  }

  /**
   * The display-name rule of one row: the entry of a known key keeps its
   * name unless the row's spelling is strictly longer, a new key starts with
   * the row's spelling (or the key when that is empty), and every other
   * entry is left alone.
   */
  lemma AddArtistName(m: seq<ArtistTotal>, norm: string, artist: string)
    requires DistinctKeys(CountsOf(m))
    ensures var r := AddArtist(m, norm, artist);
            && (forall i :: 0 <= i < |m| && m[i].norm != norm ==> i < |r| && r[i] == m[i])
            && (forall i :: 0 <= i < |m| && m[i].norm == norm ==>
                  |r| == |m| && r[i].norm == norm && r[i].name == (if |artist| > |m[i].name| then artist else m[i].name))
            && ((forall i :: 0 <= i < |m| ==> m[i].norm != norm) ==>
                  |r| == |m| + 1 && r[|m|] == ArtistTotal(norm, if artist != "" then artist else norm, 1))
  {
    forall i | 0 <= i < |m| && m[i].norm != norm
      ensures i < |AddArtist(m, norm, artist)| && AddArtist(m, norm, artist)[i] == m[i]
    {
      AddArtistOther(m, norm, artist, i);
    }
    forall i | 0 <= i < |m| && m[i].norm == norm
      ensures var r := AddArtist(m, norm, artist);
              |r| == |m| && r[i].norm == norm && r[i].name == (if |artist| > |m[i].name| then artist else m[i].name)
    {
      AddArtistKnown(m, norm, artist, i);
    }
    if forall i :: 0 <= i < |m| ==> m[i].norm != norm {
      AddArtistNew(m, norm, artist);
    }
  }

  /** The rows' keys, skipping rows whose key is empty. */
  function ArtistKeys(rows: seq<Row>): seq<string>
  {
    if |rows| == 0 then []
    else
      var n := NormalizeArtist(rows[|rows| - 1].artist);
      ArtistKeys(rows[..|rows| - 1]) + (if n == "" then [] else [n])
  }

  /** A row's key beside the spelling it was written with. */
  datatype Seen = Seen(norm: string, artist: string)

  /** Each row's key and spelling, in row order. */
  function SeenOf(rows: seq<Row>): (ss: seq<Seen>)
    ensures |ss| == |rows|
  {
    if |rows| == 0 then []
    else
      var d := rows[|rows| - 1];
      SeenOf(rows[..|rows| - 1]) + [Seen(NormalizeArtist(d.artist), d.artist)]
  }

  /** The spellings seen with key `norm`, in row order. */
  function Spellings(ss: seq<Seen>, norm: string): (r: seq<string>)
    ensures |r| <= |ss|
  {
    if |ss| == 0 then []
    else Spellings(ss[..|ss| - 1], norm) + (if ss[|ss| - 1].norm == norm then [ss[|ss| - 1].artist] else [])
  }

  /** `ss[j]` is at least as long as every spelling and strictly longer than every earlier one. */
  predicate FirstLongestAt(ss: seq<string>, j: nat)
    requires j < |ss|
  {
    forall k :: 0 <= k < |ss| ==> |ss[k]| <= |ss[j]| && (k < j ==> |ss[k]| < |ss[j]|)
  }

  /** `name` is the earliest of the longest spellings in `ss`. */
  predicate LongestEarliest(name: string, ss: seq<string>)
  {
    exists j :: 0 <= j < |ss| && ss[j] == name && FirstLongestAt(ss, j)
  }

  /** Every entry's display name is the earliest longest spelling seen with its key. */
  predicate NamesLongest(m: seq<ArtistTotal>, ss: seq<Seen>)
  {
    forall i :: 0 <= i < |m| ==> LongestEarliest(m[i].name, Spellings(ss, m[i].norm))
  }

  /**
   * The artist map, in first-seen order: the counts are the tally of the
   * keys, and each entry shows the earliest of the longest spellings among
   * the rows with its key.
   */
  function ArtistTotals(rows: seq<Row>): (m: seq<ArtistTotal>)
    ensures CountsOf(m) == Tally(ArtistKeys(rows))
    ensures NamesLongest(m, SeenOf(rows))
  {
    if |rows| == 0 then []
    else
      var d := rows[|rows| - 1];
      var n := NormalizeArtist(d.artist);
      var m := ArtistTotals(rows[..|rows| - 1]);
      ArtistTotalsStep(rows, m);
      if n == "" then m else AddArtist(m, n, d.artist)
  }

  /** The last row keeps the counts the tally of the keys and the names the earliest longest spellings. */
  lemma ArtistTotalsStep(rows: seq<Row>, m: seq<ArtistTotal>)
    requires |rows| > 0
    requires CountsOf(m) == Tally(ArtistKeys(rows[..|rows| - 1]))
    requires NamesLongest(m, SeenOf(rows[..|rows| - 1]))
    ensures var d := rows[|rows| - 1];
            var n := NormalizeArtist(d.artist);
            var r := if n == "" then m else AddArtist(m, n, d.artist);
            CountsOf(r) == Tally(ArtistKeys(rows)) && NamesLongest(r, SeenOf(rows))
  {
    var p := rows[..|rows| - 1];
    var d := rows[|rows| - 1];
    var n := NormalizeArtist(d.artist);
    ArtistCountsStep(rows, m);
    assert n != "" ==> d.artist != "";
    NormsNonEmpty(m, p);
    if n != "" && forall i :: 0 <= i < |m| ==> m[i].norm != n {
      AbsentKeyNoSpelling(m, p, n);
    }
    assert SeenOf(rows) == SeenOf(p) + [Seen(n, d.artist)];
    NamesStep(m, SeenOf(p), n, d.artist);
  }

  /** The last row adds its key, if any, to the tally. */
  lemma ArtistCountsStep(rows: seq<Row>, m: seq<ArtistTotal>)
    requires |rows| > 0
    requires CountsOf(m) == Tally(ArtistKeys(rows[..|rows| - 1]))
    ensures var n := NormalizeArtist(rows[|rows| - 1].artist);
            CountsOf(if n == "" then m else AddArtist(m, n, rows[|rows| - 1].artist)) == Tally(ArtistKeys(rows))
  {
    var p := rows[..|rows| - 1];
    var n := NormalizeArtist(rows[|rows| - 1].artist);
    var ks := ArtistKeys(rows);
    if n == "" {
      assert ks == ArtistKeys(p);
    } else {
      assert ks[..|ks| - 1] == ArtistKeys(p) && ks[|ks| - 1] == n;
    }
  }

  /** Every key in the map is non-empty. */
  lemma NormsNonEmpty(m: seq<ArtistTotal>, rows: seq<Row>)
    requires CountsOf(m) == Tally(ArtistKeys(rows))
    ensures forall i :: 0 <= i < |m| ==> m[i].norm != ""
  {
    ArtistKeysNonEmpty(rows);
    TallyKeys(ArtistKeys(rows), "");
    forall i | 0 <= i < |m| ensures m[i].norm != "" {
      assert Keys(CountsOf(m))[i] == m[i].norm;
    }
  }

  /** No row contributes the empty key. */
  lemma {:induction false} ArtistKeysNonEmpty(rows: seq<Row>)
    ensures "" !in ArtistKeys(rows)
    decreases |rows|
  {
    if |rows| > 0 {
      ArtistKeysNonEmpty(rows[..|rows| - 1]);
    }
  }

  /** A key absent from the map has no spelling among the rows tallied. */
  lemma AbsentKeyNoSpelling(m: seq<ArtistTotal>, rows: seq<Row>, n: string)
    requires CountsOf(m) == Tally(ArtistKeys(rows))
    requires n != "" && forall i :: 0 <= i < |m| ==> m[i].norm != n
    ensures Spellings(SeenOf(rows), n) == []
  {
    TallyKeys(ArtistKeys(rows), n);
    assert n !in Keys(Tally(ArtistKeys(rows)));
    KeysSpellings(rows, n);
  }

  /** A non-empty key is among the row keys exactly when some row spells it. */
  lemma {:induction false} KeysSpellings(rows: seq<Row>, n: string)
    requires n != ""
    ensures n in ArtistKeys(rows) <==> |Spellings(SeenOf(rows), n)| > 0
    decreases |rows|
  {
    if |rows| > 0 {
      var p := rows[..|rows| - 1];
      KeysSpellings(p, n);
      var ss := SeenOf(rows);
      assert ss[..|ss| - 1] == SeenOf(p);
    }
  }

  /** Adding a spelling keeps the earliest longest one unless the new one is strictly longer. */
  lemma LongestEarliestSnoc(name: string, ss: seq<string>, a: string)
    requires LongestEarliest(name, ss)
    ensures LongestEarliest(if |a| > |name| then a else name, ss + [a])
  {
    var j :| 0 <= j < |ss| && ss[j] == name && FirstLongestAt(ss, j);
    var t := ss + [a];
    if |a| > |name| {
      assert t[|ss|] == a;
      assert FirstLongestAt(t, |ss|);
    } else {
      assert t[j] == name;
      assert FirstLongestAt(t, j);
    }
  }

  /** One more row, with key `n` and spelling `a`, keeps every display name the earliest longest spelling. */
  lemma NamesStep(m: seq<ArtistTotal>, ss: seq<Seen>, n: string, a: string)
    requires DistinctKeys(CountsOf(m)) && NamesLongest(m, ss)
    requires forall i :: 0 <= i < |m| ==> m[i].norm != ""
    requires n != "" ==> a != ""
    requires n != "" && (forall i :: 0 <= i < |m| ==> m[i].norm != n) ==> Spellings(ss, n) == []
    ensures NamesLongest(if n == "" then m else AddArtist(m, n, a), ss + [Seen(n, a)])
  {
    if n == "" {
      NamesSkip(m, ss, a);
    } else if exists k :: 0 <= k < |m| && m[k].norm == n {
      var k :| 0 <= k < |m| && m[k].norm == n;
      NamesKnown(m, ss, n, a, k);
    } else {
      NamesNew(m, ss, n, a);
    }
  }

  /** A row with the empty key is not counted and changes no entry's spellings. */
  lemma NamesSkip(m: seq<ArtistTotal>, ss: seq<Seen>, a: string)
    requires NamesLongest(m, ss)
    requires forall i :: 0 <= i < |m| ==> m[i].norm != ""
    ensures NamesLongest(m, ss + [Seen("", a)])
  {
    forall i | 0 <= i < |m| ensures LongestEarliest(m[i].name, Spellings(ss + [Seen("", a)], m[i].norm)) {
      SpellingsSnoc(ss, Seen("", a), m[i].norm);
      var before := Spellings(ss, m[i].norm);
      assert before + [] == before;
      assert LongestEarliest(m[i].name, before);
    }
  }

  /** A row of a key already in the map. */
  lemma NamesKnown(m: seq<ArtistTotal>, ss: seq<Seen>, n: string, a: string, k: nat)
    requires DistinctKeys(CountsOf(m)) && NamesLongest(m, ss)
    requires k < |m| && m[k].norm == n
    ensures NamesLongest(AddArtist(m, n, a), ss + [Seen(n, a)])
  {
    AddArtistKnown(m, n, a, k);
    var r := AddArtist(m, n, a);
    forall i | 0 <= i < |r| ensures LongestEarliest(r[i].name, Spellings(ss + [Seen(n, a)], r[i].norm)) {
      if m[i].norm != n {
        NameOtherAt(m, ss, n, a, i);
      } else {
        NameKnownAt(m, ss, n, a, i);
      }
    }
  }

  /** A row of a key not yet in the map. */
  lemma NamesNew(m: seq<ArtistTotal>, ss: seq<Seen>, n: string, a: string)
    requires DistinctKeys(CountsOf(m)) && NamesLongest(m, ss)
    requires a != ""
    requires forall i :: 0 <= i < |m| ==> m[i].norm != n
    requires Spellings(ss, n) == []
    ensures NamesLongest(AddArtist(m, n, a), ss + [Seen(n, a)])
  {
    AddArtistNew(m, n, a);
    var r := AddArtist(m, n, a);
    forall i | 0 <= i < |r| ensures LongestEarliest(r[i].name, Spellings(ss + [Seen(n, a)], r[i].norm)) {
      if i < |m| {
        NameOtherAt(m, ss, n, a, i);
      } else {
        assert i == |m|;
        NameNewAt(m, ss, n, a);
      }
    }
  }

  /** Spellings after one more key and spelling. */
  lemma SpellingsSnoc(ss: seq<Seen>, x: Seen, norm: string)
    ensures Spellings(ss + [x], norm) == Spellings(ss, norm) + (if x.norm == norm then [x.artist] else [])
  {
    var t := ss + [x];
    assert t[..|t| - 1] == ss;
  }

  /** An entry of another key keeps its name and its spellings. */
  lemma NameOtherAt(m: seq<ArtistTotal>, ss: seq<Seen>, n: string, a: string, i: nat)
    requires DistinctKeys(CountsOf(m)) && NamesLongest(m, ss)
    requires i < |m| && m[i].norm != n
    ensures i < |AddArtist(m, n, a)|
    ensures LongestEarliest(AddArtist(m, n, a)[i].name, Spellings(ss + [Seen(n, a)], AddArtist(m, n, a)[i].norm))
  {
    AddArtistOther(m, n, a, i);
    SpellingsSnoc(ss, Seen(n, a), m[i].norm);
    var before := Spellings(ss, m[i].norm);
    assert before + [] == before;
    assert Spellings(ss + [Seen(n, a)], m[i].norm) == before;
    assert LongestEarliest(m[i].name, before);
  }

  /** The entry of the row's key takes the row's spelling when it is strictly longer. */
  lemma NameKnownAt(m: seq<ArtistTotal>, ss: seq<Seen>, n: string, a: string, i: nat)
    requires DistinctKeys(CountsOf(m)) && NamesLongest(m, ss)
    requires i < |m| && m[i].norm == n
    ensures i < |AddArtist(m, n, a)|
    ensures LongestEarliest(AddArtist(m, n, a)[i].name, Spellings(ss + [Seen(n, a)], AddArtist(m, n, a)[i].norm))
  {
    AddArtistKnown(m, n, a, i);
    SpellingsSnoc(ss, Seen(n, a), n);
    var before := Spellings(ss, n);
    assert LongestEarliest(m[i].name, before);
    LongestEarliestSnoc(m[i].name, before, a);
  }

  /** A new key's entry shows the row's spelling, its only one. */
  lemma NameNewAt(m: seq<ArtistTotal>, ss: seq<Seen>, n: string, a: string)
    requires DistinctKeys(CountsOf(m))
    requires a != ""
    requires forall i :: 0 <= i < |m| ==> m[i].norm != n
    requires Spellings(ss, n) == []
    ensures |m| < |AddArtist(m, n, a)|
    ensures LongestEarliest(AddArtist(m, n, a)[|m|].name, Spellings(ss + [Seen(n, a)], AddArtist(m, n, a)[|m|].norm))
  {
    AddArtistNew(m, n, a);
    SpellingsSnoc(ss, Seen(n, a), n);
    assert Spellings(ss + [Seen(n, a)], n) == [a];
    assert [a][0] == a && FirstLongestAt([a], 0);
  }

  /** Each artist entry counts the rows with its key. */
  lemma ArtistTotalsCount(rows: seq<Row>, i: nat)
    requires i < |ArtistTotals(rows)|
    ensures ArtistTotals(rows)[i].count == Count(ArtistKeys(rows), ArtistTotals(rows)[i].norm)
  {
    var m := ArtistTotals(rows);
    assert Tally(ArtistKeys(rows))[i] == Entry(m[i].norm, m[i].count);
    TallyEntry(ArtistKeys(rows), i);
  }

  function ByTotalDesc(a: ArtistTotal): int
  {
    -(a.count as int)
  }

  /** `artistCounts`: the artist map, most frequent first, ties in first-seen order. */
  function ArtistCounts(rows: seq<Row>): (r: seq<ArtistTotal>)
    ensures |r| == |ArtistTotals(rows)|
    ensures multiset(r) == multiset(ArtistTotals(rows))
    ensures forall i, j :: 0 <= i < j < |r| ==> r[i].count >= r[j].count
  {
    var r := SortBy(ArtistTotals(rows), ByTotalDesc);
    assert forall i, j :: 0 <= i < j < |r| ==> ByTotalDesc(r[i]) <= ByTotalDesc(r[j]);
    r
  }

  /** `topArtists`: at most ten artist entries, most frequent first. */
  function TopArtists(rows: seq<Row>): (r: seq<ArtistTotal>)
    ensures |r| <= 10
    ensures |r| == if |ArtistTotals(rows)| < 10 then |ArtistTotals(rows)| else 10
    ensures multiset(r) <= multiset(ArtistTotals(rows))
    ensures forall i, j :: 0 <= i < j < |r| ==> r[i].count >= r[j].count
  {
    var s := ArtistCounts(rows);
    TopTen(s);
    Take(s, 10)
  }

  /** The first ten of a list sorted by count are a sub-multiset, still sorted. */
  lemma TopTen(s: seq<ArtistTotal>)
    requires forall i, j :: 0 <= i < j < |s| ==> s[i].count >= s[j].count
    ensures multiset(Take(s, 10)) <= multiset(s)
    ensures forall i, j :: 0 <= i < j < |Take(s, 10)| ==> Take(s, 10)[i].count >= Take(s, 10)[j].count
  {
    var r := Take(s, 10);
    assert s == r + s[|r|..];
    assert multiset(s) == multiset(r) + multiset(s[|r|..]);
  }

  /** No artist left out of the top ten has more rows than one listed. */
  lemma TopArtistsDominate(rows: seq<Row>, a: ArtistTotal, i: nat)
    requires a in ArtistTotals(rows) && a !in TopArtists(rows) && i < |TopArtists(rows)|
    ensures a.count <= TopArtists(rows)[i].count
  {
    TakeSortedDominates(ArtistTotals(rows), ByTotalDesc, 10, a, i);
  }

  /* ---------------- longest tracks ---------------- */

  predicate HasSecs(d: Row)
  {
    d.secs.Some?
  }

  function BySecsDesc(d: Row): int
  {
    if d.secs.Some? then -d.secs.value else 0
  }

  /** `longest`: at most ten rows with a known length, longest first. */
  function Longest(rows: seq<Row>): (r: seq<Row>)
    ensures |r| <= 10
    ensures |r| == if |Filter(HasSecs, rows)| < 10 then |Filter(HasSecs, rows)| else 10
    ensures SortedBy(r, BySecsDesc)
  {
    var s := SortBy(Filter(HasSecs, rows), BySecsDesc);
    var r := Take(s, 10);
    assert forall i, j :: 0 <= i < j < |r| ==> r[i] == s[i] && r[j] == s[j];
    r
  }

  /** The listed rows are rows of the input, each with a known length, longest first. */
  lemma {:induction false} LongestRows(rows: seq<Row>)
    ensures var r := Longest(rows);
            && multiset(r) <= multiset(rows)
            && (forall i :: 0 <= i < |r| ==> r[i].secs.Some?)
            && (forall i, j :: 0 <= i < j < |r| ==> r[i].secs.value >= r[j].secs.value)
  {
    var timed := Filter(HasSecs, rows);
    var s := SortBy(timed, BySecsDesc);
    var r := Longest(rows);
    assert s == r + s[|r|..];
    assert multiset(s) == multiset(r) + multiset(s[|r|..]);
    FilterSubMultiset(HasSecs, rows);
    forall i | 0 <= i < |r| ensures r[i].secs.Some? {
      assert r[i] in multiset(timed);
    }
    forall i, j | 0 <= i < j < |r| ensures r[i].secs.value >= r[j].secs.value {
      assert BySecsDesc(r[i]) <= BySecsDesc(r[j]);
    }
  }

  lemma {:induction false} FilterSubMultiset<T>(f: T -> bool, s: seq<T>)
    ensures multiset(Filter(f, s)) <= multiset(s)
    decreases |s|
  {
    if |s| > 0 {
      FilterSubMultiset(f, s[1..]);
      assert s == [s[0]] + s[1..];
    }
  }

  /** No timed row left out of the ten is longer than one listed. */
  lemma LongestDominates(rows: seq<Row>, d: Row, i: nat)
    requires d in rows && d.secs.Some? && d !in Longest(rows) && i < |Longest(rows)|
    ensures Longest(rows)[i].secs.Some? && d.secs.value <= Longest(rows)[i].secs.value
  {
    LongestRows(rows);
    var timed := Filter(HasSecs, rows);
    assert d in timed;
    TakeSortedDominates(timed, BySecsDesc, 10, d, i);
  }

  /* ---------------- toggles ---------------- */

  function NotEqual(name: string): string -> bool
  {
    x => x != name
  }

  /** `toggleLabel`: removes every copy of a selected label, or appends an unselected one. */
  function ToggleLabel(name: string, labels: seq<string>): (r: seq<string>)
    ensures name in r <==> name !in labels
    ensures forall x :: x != name ==> (x in r <==> x in labels)
    ensures Filter(NotEqual(name), r) == Filter(NotEqual(name), labels)
  {
    if name in labels then
      FilterTwice(NotEqual(name), labels);
      Filter(NotEqual(name), labels)
    else
      FilterAppend(NotEqual(name), labels, [name]);
      assert Filter(NotEqual(name), [name]) == [];
      labels + [name]
  }

  lemma {:induction false} FilterTwice<T>(f: T -> bool, s: seq<T>)
    ensures Filter(f, Filter(f, s)) == Filter(f, s)
    decreases |s|
  {
    if |s| > 0 {
      FilterTwice(f, s[1..]);
    }
  }

  /** Toggling an unselected label twice leaves the selection as it was. */
  lemma ToggleLabelTwice(name: string, labels: seq<string>)
    requires name !in labels
    ensures ToggleLabel(name, ToggleLabel(name, labels)) == labels
  {
    FilterAppend(NotEqual(name), labels, [name]);
    assert Filter(NotEqual(name), [name]) == [];
    FilterAll(NotEqual(name), labels);
  }

  /** `isArtistActive`: some selected artist has this key. */
  predicate IsArtistActive(norm: string, selected: seq<string>)
  {
    exists i :: 0 <= i < |selected| && NormalizeArtist(selected[i]) == norm
  }

  /**
   * Adding a name to the selection activates exactly its own key and keeps
   * every key that was active.
   */
  lemma IsArtistActiveAppend(norm: string, selected: seq<string>, name: string)
    ensures IsArtistActive(norm, selected + [name]) <==>
              IsArtistActive(norm, selected) || NormalizeArtist(name) == norm
  {
    var t := selected + [name];
    if IsArtistActive(norm, t) {
      var i :| 0 <= i < |t| && NormalizeArtist(t[i]) == norm;
      if i < |selected| {
        assert t[i] == selected[i];
      }
    }
    if IsArtistActive(norm, selected) {
      var i :| 0 <= i < |selected| && NormalizeArtist(selected[i]) == norm;
      assert t[i] == selected[i];
    }
    if NormalizeArtist(name) == norm {
      assert t[|selected|] == name;
    }
  }

  function OtherArtist(norm: string): string -> bool
  {
    a => NormalizeArtist(a) != norm
  }

  /**
   * `toggleArtist`: drops every selected spelling of an active artist, or
   * appends the displayed name of an inactive one.
   */
  function ToggleArtist(norm: string, display: string, selected: seq<string>): (r: seq<string>)
    ensures IsArtistActive(norm, selected) ==> IsSubsequence(r, selected)
    ensures !IsArtistActive(norm, selected) ==> r == selected + [display]
  {
    if IsArtistActive(norm, selected) then
      FilterIsSubsequence(OtherArtist(norm), selected);
      Filter(OtherArtist(norm), selected)
    else selected + [display]
  }

  /**
   * Toggling switches the artist: an active one becomes inactive, and an
   * inactive one becomes active when the displayed name has its key.
   */
  lemma ToggleArtistSwitches(norm: string, display: string, selected: seq<string>)
    ensures var r := ToggleArtist(norm, display, selected);
            && (IsArtistActive(norm, selected) ==> !IsArtistActive(norm, r))
            && (!IsArtistActive(norm, selected) ==> (IsArtistActive(norm, r) <==> NormalizeArtist(display) == norm))
  {
    var r := ToggleArtist(norm, display, selected);
    if IsArtistActive(norm, selected) {
      forall i | 0 <= i < |r| ensures NormalizeArtist(r[i]) != norm {
        assert OtherArtist(norm)(r[i]);
      }
    } else {
      assert r[|selected|] == display;
      forall i | 0 <= i < |selected| ensures NormalizeArtist(r[i]) != norm {
        assert r[i] == selected[i];
      }
    }
  }

  /** Artists with another key keep their place in the selection. */
  lemma ToggleArtistOthers(norm: string, display: string, selected: seq<string>, a: string)
    requires NormalizeArtist(a) != norm && a != display
    ensures a in ToggleArtist(norm, display, selected) <==> a in selected
  {
    if IsArtistActive(norm, selected) {
      assert OtherArtist(norm)(a);
    }
  }
}
