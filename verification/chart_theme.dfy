/**
 * The chart helpers shared by the dashboard's bar charts: the colour order
 * that keeps neighbouring bars apart, the abbreviation of long label words,
 * the word wrapping of axis labels, and the font size of a wrapped label.
 * `src/charts/theme.js` and `src/charts/theme.jsx` hold the same helpers
 * over a 10-colour and an 8-colour palette.
 */
module ChartTheme {
  import opened Wrappers
  import opened Text
  import Seqs

  /* ---------------- palette ---------------- */

  const BasePalette10: seq<string> := [
    "#9ce626ff", "#6e417a", "#ef6a6a", "#c77dff", "#72c38f",
    "#ee6415ff", "#5fa8ff", "#43aa8b", "#ff6b6b", "#bdb2ff"]

  const BasePalette8: seq<string> := [
    "#f59e0b", "#ef4444", "#3b82f6", "#10b981",
    "#8b5cf6", "#64748b", "#d97706", "#b91c1c"]

  /** Steps `i` to `half - 1` of the loop: `p[i]`, then `p[i + half]` when it exists and is not empty. */
  function SpreadFrom(p: seq<string>, half: nat, i: nat): (r: seq<string>)
    requires half <= |p|
    ensures forall k :: 0 <= k < |r| ==> r[k] in p
    ensures i < half ==> |r| > 0 && r[0] == p[i]
    decreases half - i
  {
    if i >= half then []
    else [p[i]] + (if i + half < |p| && |p[i + half]| > 0 then [p[i + half]] else []) + SpreadFrom(p, half, i + 1)
  }

  /** `SPREAD`: the palette's first half interleaved with its second half. */
  function Spread(p: seq<string>): (r: seq<string>)
    ensures forall k :: 0 <= k < |r| ==> r[k] in p
    ensures |p| > 0 ==> |r| > 0 && r[0] == p[0]
  {
    SpreadFrom(p, (|p| + 1) / 2, 0)
  }

  predicate NoEmptyColour(p: seq<string>)
  {
    forall i :: 0 <= i < |p| ==> |p[i]| > 0
  }

  /** One step of the loop on an even-length palette pushes both `p[i]` and `p[i + half]`. */
  lemma SpreadFromStep(p: seq<string>, half: nat, i: nat)
    requires |p| == 2 * half && i < half && NoEmptyColour(p)
    ensures SpreadFrom(p, half, i) == [p[i], p[i + half]] + SpreadFrom(p, half, i + 1)
  {
  }

  lemma {:induction false} SpreadFromLength(p: seq<string>, half: nat, i: nat)
    requires |p| == 2 * half && i <= half && NoEmptyColour(p)
    ensures |SpreadFrom(p, half, i)| == 2 * (half - i)
    decreases half - i
  {
    if i < half {
      SpreadFromStep(p, half, i);
      SpreadFromLength(p, half, i + 1);
    }
  }

  lemma {:induction false} SpreadFromAt(p: seq<string>, half: nat, i: nat, k: nat)
    requires |p| == 2 * half && i + k < half && NoEmptyColour(p)
    ensures |SpreadFrom(p, half, i)| == 2 * (half - i)
    ensures SpreadFrom(p, half, i)[2 * k] == p[i + k] && SpreadFrom(p, half, i)[2 * k + 1] == p[i + k + half]
    decreases k
  {
    SpreadFromLength(p, half, i);
    SpreadFromStep(p, half, i);
    if k > 0 {
      SpreadFromAt(p, half, i + 1, k - 1);
    }
  }

  lemma HalvesStep(p: seq<string>, half: nat, i: nat, j: nat)
    requires |p| == 2 * half && i < half && j == i + 1
    ensures multiset(p[i..half]) + multiset(p[i + half..]) ==
            multiset{p[i], p[i + half]} + multiset(p[j..half]) + multiset(p[j + half..])
  {
    assert p[i..half] == [p[i]] + p[j..half];
    assert p[i + half..] == [p[i + half]] + p[j + half..];
  }

  lemma {:induction false} SpreadFromMultiset(p: seq<string>, half: nat, i: nat)
    requires |p| == 2 * half && i <= half && NoEmptyColour(p)
    ensures multiset(SpreadFrom(p, half, i)) == multiset(p[i..half]) + multiset(p[i + half..])
    decreases half - i
  {
    if i < half {
      SpreadFromStep(p, half, i);
      var j := i + 1;
      var t := SpreadFrom(p, half, j);
      SpreadFromMultiset(p, half, j);
      assert multiset([p[i], p[i + half]] + t) == multiset{p[i], p[i + half]} + multiset(t);
      HalvesStep(p, half, i, j);
    }
  }

  /**
   * For an even-length palette without empty entries, `SPREAD` lists colour
   * `k` of the first half followed by colour `k` of the second half, and is
   * a permutation of the palette.
   */
  lemma SpreadInterleaves(p: seq<string>)
    requires |p| % 2 == 0 && NoEmptyColour(p)
    ensures |Spread(p)| == |p|
    ensures forall k :: 0 <= k < |p| / 2 ==> Spread(p)[2 * k] == p[k] && Spread(p)[2 * k + 1] == p[k + |p| / 2]
    ensures multiset(Spread(p)) == multiset(p)
  {
    var half := |p| / 2;
    SpreadEven(p, half);
    SpreadFromLength(p, half, 0);
    forall k | 0 <= k < half ensures Spread(p)[2 * k] == p[k] && Spread(p)[2 * k + 1] == p[k + half] {
      SpreadFromAt(p, half, 0, k);
    }
    SpreadFromMultiset(p, half, 0);
    HalvesWhole(p, half);
  }

  lemma SpreadEven(p: seq<string>, half: nat)
    requires |p| == 2 * half
    ensures Spread(p) == SpreadFrom(p, half, 0)
  {
    assert (|p| + 1) / 2 == half;
  }

  lemma HalvesWhole(p: seq<string>, half: nat)
    requires |p| == 2 * half
    ensures multiset(p[0..half]) + multiset(p[0 + half..]) == multiset(p)
  {
    assert p == p[0..half] + p[half..];
  }

  /** A ten-colour palette is spread as colours 0, 5, 1, 6, 2, 7, 3, 8, 4, 9. */
  lemma SpreadOrder10(p: seq<string>)
    requires |p| == 10 && NoEmptyColour(p)
    ensures Spread(p) == [p[0], p[5], p[1], p[6], p[2], p[7], p[3], p[8], p[4], p[9]]
  {
    SpreadEven(p, 5);
    SpreadFromPrefix(p, 5, 0);
    SpreadFromPrefix(p, 5, 1);
    SpreadFromPrefix(p, 5, 2);
    SpreadFromPrefix(p, 5, 3);
    SpreadFromPrefix(p, 5, 4);
    SpreadFromPrefix(p, 5, 5);
  }

  /** On an even palette, the loop from `i` on pushes `p[i]`, `p[i + half]` and then continues. */
  lemma SpreadFromPrefix(p: seq<string>, half: nat, i: nat)
    requires |p| == 2 * half && i <= half && NoEmptyColour(p)
    ensures i < half ==> SpreadFrom(p, half, i) == [p[i], p[i + half]] + SpreadFrom(p, half, i + 1)
    ensures i == half ==> SpreadFrom(p, half, i) == []
  {
    if i < half {
      SpreadFromStep(p, half, i);
    }
  }

  /** An eight-colour palette is spread as colours 0, 4, 1, 5, 2, 6, 3, 7. */
  lemma SpreadOrder8(p: seq<string>)
    requires |p| == 8 && NoEmptyColour(p)
    ensures Spread(p) == [p[0], p[4], p[1], p[5], p[2], p[6], p[3], p[7]]
  {
    SpreadEven(p, 4);
    SpreadFromPrefix(p, 4, 0);
    SpreadFromPrefix(p, 4, 1);
    SpreadFromPrefix(p, 4, 2);
    SpreadFromPrefix(p, 4, 3);
    SpreadFromPrefix(p, 4, 4);
  }

  lemma BasePalettesNonEmpty()
    ensures NoEmptyColour(BasePalette10) && NoEmptyColour(BasePalette8)
  {
  }

  /** Both base palettes spread to a permutation of themselves. */
  lemma BasePaletteSpread(p: seq<string>)
    requires p == BasePalette10 || p == BasePalette8
    ensures |Spread(p)| == |p| && multiset(Spread(p)) == multiset(p)
  {
    BasePalettesNonEmpty();
    SpreadInterleaves(p);
  }

  /**
   * `colorByIndex(i)`: `SPREAD[i % SPREAD.length]` with JavaScript's `%`;
   * a negative index other than a multiple of the length reads past the
   * front and gives `undefined`.
   */
  function ColorByIndex(spread: seq<string>, i: int): (r: Option<string>)
    requires |spread| > 0
    ensures i >= 0 ==> r.Some? && r.value in spread
    ensures i >= 0 ==> r == Some(spread[i % |spread|])
  {
    var k := JsRem(i, |spread|);
    if k >= 0 then Some(spread[k]) else None
  }

  /** The colour repeats every palette length (10 in theme.js, 8 in theme.jsx). */
  lemma ColorByIndexPeriodic(spread: seq<string>, i: nat)
    requires |spread| == 10 || |spread| == 8
    ensures ColorByIndex(spread, i + |spread|) == ColorByIndex(spread, i)
  {
    if |spread| == 10 {
      assert (i + 10) % 10 == i % 10;
    } else {
      assert (i + 8) % 8 == i % 8;
    }
  }

  /** Consecutive indices, as many as the palette has colours, get different colours when the palette has no repeats. */
  lemma ColorByIndexDistinct(spread: seq<string>, i: nat, j: nat)
    requires |spread| == 10 || |spread| == 8
    requires i < j < i + |spread|
    requires forall a, b :: 0 <= a < b < |spread| ==> spread[a] != spread[b]
    ensures ColorByIndex(spread, i) != ColorByIndex(spread, j)
  {
    var n := |spread|;
    var a, b := i % n, j % n;
    if n == 10 {
      assert a != b;
    } else {
      assert a != b;
    }
    if a < b {
      assert spread[a] != spread[b];
    } else {
      assert spread[b] != spread[a];
    }
  }

  /** Neither base palette repeats a colour. */
  lemma PalettesDistinct()
    ensures forall a, b :: 0 <= a < b < |BasePalette10| ==> BasePalette10[a] != BasePalette10[b]
    ensures forall a, b :: 0 <= a < b < |BasePalette8| ==> BasePalette8[a] != BasePalette8[b]
  {
  }

  /* ---------------- abbreviations ---------------- */

  /** The words `abbreviate` rewrites, in the order the pattern tries them. */
  const AbbrevWords: seq<string> := [
    "Records", "Recordings", "Incorporated", "Corporation",
    "Company", "Limited", "International", "Brothers"]

  /** `ABBREV[w]`. */
  function Short(w: string): (r: string)
    requires w in AbbrevWords
    ensures |r| < |w|
  {
    if w == "Records" || w == "Recordings" then "Recs."
    else if w == "Incorporated" then "Inc."
    else if w == "Corporation" then "Corp."
    else if w == "Company" then "Co."
    else if w == "Limited" then "Ltd."
    else if w == "International" then "Intl."
    else "Bros."
  }

  /** `\b` after a match of length `n` at the start of `s`. */
  predicate EndsWord(s: string, n: nat)
  {
    n == |s| || (n < |s| && !IsWordChar(s[n]))
  }

  /** The first listed word that starts `s` and ends at a word boundary. */
  function MatchIn(ws: seq<string>, s: string): (r: Option<string>)
    ensures r.Some? ==> r.value in ws && r.value <= s && EndsWord(s, |r.value|)
    ensures r.None? ==> forall k :: 0 <= k < |ws| ==> !(ws[k] <= s && EndsWord(s, |ws[k]|))
  {
    if |ws| == 0 then None
    else if ws[0] <= s && EndsWord(s, |ws[0]|) then Some(ws[0])
    else MatchIn(ws[1..], s)
  }

  /** Every listed word is a capitalised run of letters. */
  lemma AbbrevWordsShape(w: string)
    requires w in AbbrevWords
    ensures |w| > 0 && IsUpper(w[0])
    ensures forall k :: 0 <= k < |w| ==> IsWordChar(w[k])
  {
  }

  /**
   * The global replace, scanning left to right; `afterWord` says whether the
   * character before `s` is a word character, so that `\b` holds before a
   * match exactly when it is not.
   */
  function AbbrevFrom(s: string, afterWord: bool): (r: string)
    ensures |r| <= |s|
    decreases |s|
  {
    if |s| == 0 then ""
    else
      match (if afterWord then None else MatchIn(AbbrevWords, s))
      case Some(w) =>
        AbbrevWordsShape(w);
        Short(w) + AbbrevFrom(s[|w|..], true)
      case None => [s[0]] + AbbrevFrom(s[1..], IsWordChar(s[0]))
  }

  /** `abbreviate`: the listed whole words replaced by their short forms; never longer. */
  function Abbreviate(s: string): (r: string)
    ensures |r| <= |s|
  {
    AbbrevFrom(s, false)
  }

  /** Every listed word starts with a capital, so none starts a string that does not. */
  lemma NoMatchWithoutCapital(s: string)
    requires |s| > 0 && !IsUpper(s[0])
    ensures MatchIn(AbbrevWords, s).None?
  {
    forall k | 0 <= k < |AbbrevWords| ensures !(AbbrevWords[k] <= s) {
      AbbrevWordsShape(AbbrevWords[k]);
      assert AbbrevWords[k][0] != s[0];
    }
  }

  /** Only capitalised words are rewritten: a string without capitals is left alone. */
  lemma {:induction false} AbbreviateNoCapitals(s: string, afterWord: bool)
    requires IsLowerCase(s)
    ensures AbbrevFrom(s, afterWord) == s
    decreases |s|
  {
    if |s| > 0 {
      NoMatchWithoutCapital(s);
      AbbreviateNoCapitals(s[1..], IsWordChar(s[0]));
    }
  }

  /** A word boundary before position `i` of `s`, given what precedes `s`. */
  predicate BoundaryBefore(s: string, afterWord: bool, i: nat)
    requires i < |s|
  {
    if i == 0 then !afterWord else !IsWordChar(s[i - 1])
  }

  /**
   * Only whole listed words are rewritten: when no listed word starts at a
   * word boundary and ends at one, the text is left alone, so "XRecords" and
   * "Recordsville" keep their spelling.
   */
  lemma {:induction false} AbbreviateOnlyWholeWords(s: string, afterWord: bool)
    requires forall i :: 0 <= i < |s| && BoundaryBefore(s, afterWord, i) ==> MatchIn(AbbrevWords, s[i..]).None?
    ensures AbbrevFrom(s, afterWord) == s
    decreases |s|
  {
    if |s| > 0 {
      var t := s[1..];
      forall i | 0 <= i < |t| && BoundaryBefore(t, IsWordChar(s[0]), i)
        ensures MatchIn(AbbrevWords, t[i..]).None?
      {
        assert BoundaryBefore(s, afterWord, i + 1);
        assert t[i..] == s[i + 1..];
      }
      if !afterWord {
        assert BoundaryBefore(s, afterWord, 0);
        assert s[0..] == s;
      }
      AbbreviateOnlyWholeWords(t, IsWordChar(s[0]));
    }
  }

  /** "XRecords" is not abbreviated: the word has no boundary before it. */
  lemma AbbreviateInWordExample()
    ensures Abbreviate("XRecords") == "XRecords"
  {
    var s := "XRecords";
    forall i | 0 <= i < |s| && BoundaryBefore(s, false, i)
      ensures MatchIn(AbbrevWords, s[i..]).None?
    {
      assert i == 0;
      assert s[0..] == s;
      forall k | 0 <= k < |AbbrevWords| ensures !(AbbrevWords[k] <= s) {
        assert AbbrevWords[k][0] != s[0];
      }
    }
    AbbreviateOnlyWholeWords(s, false);
  }

  /** A listed word standing on its own at the front is replaced. */
  lemma AbbreviateWord(w: string, t: string)
    requires w in AbbrevWords
    requires t == "" || !IsWordChar(t[0])
    ensures AbbrevFrom(w + t, false) == Short(w) + AbbrevFrom(t, true)
  {
    var s := w + t;
    assert EndsWord(s, |w|);
    AbbrevWordsShape(w);
    MatchUnique(AbbrevWords, w, t);
    assert s[|w|..] == t;
  }

  /** Among the listed words, only `w` itself matches at the front of `w + t`. */
  lemma NoOtherMatch(v: string, w: string, t: string)
    requires v in AbbrevWords && w in AbbrevWords
    requires t == "" || !IsWordChar(t[0])
    ensures v <= w + t && EndsWord(w + t, |v|) ==> v == w
  {
    var s := w + t;
    AbbrevWordsShape(v);
    AbbrevWordsShape(w);
    if |v| < |w| {
      assert s[|v|] == w[|v|];
      assert !EndsWord(s, |v|);
    } else if |v| > |w| {
      if t == "" {
        assert |s| < |v|;
      } else {
        assert s[|w|] == t[0];
        assert v[|w|] != s[|w|];
      }
    } else if v <= s {
      assert v == s[..|v|] == w;
    }
  }

  lemma {:induction false} MatchUnique(ws: seq<string>, w: string, t: string)
    requires w in ws
    requires forall k :: 0 <= k < |ws| ==> ws[k] in AbbrevWords
    requires w in AbbrevWords
    requires t == "" || !IsWordChar(t[0])
    ensures MatchIn(ws, w + t) == Some(w)
    decreases |ws|
  {
    var s := w + t;
    assert s[..|w|] == w;
    assert EndsWord(s, |w|);
    NoOtherMatch(ws[0], w, t);
    if ws[0] != w {
      MatchUnique(ws[1..], w, t);
    }
  }

  /** Anything else is copied, and a non-word character opens a new word boundary. */
  lemma AbbreviateNonWord(c: char, t: string, afterWord: bool)
    requires !IsWordChar(c)
    ensures AbbrevFrom([c] + t, afterWord) == [c] + AbbrevFrom(t, false)
  {
    var s := [c] + t;
    forall k | 0 <= k < |AbbrevWords| ensures !(AbbrevWords[k] <= s) {
      AbbrevWordsShape(AbbrevWords[k]);
      assert AbbrevWords[k][0] != s[0];
    }
    assert s[1..] == t;
  }

  /* ---------------- label wrapping ---------------- */

  const Ellipsis: char := '\U{2026}'

  /** `line ? line + " " + w : w`. */
  function Extend(line: string, w: string): string
  {
    if line != "" then line + " " + w else w
  }

  /** A line is within the width, or holds a single word. */
  predicate Fits(l: string, maxChars: nat)
  {
    |l| <= maxChars || ' ' !in l
  }

  /**
   * The `for (const w of words)` loop from a state (`lines`, `line`): a word
   * that would overflow the line closes it and starts the next one, and the
   * loop breaks once `maxLines - 1` lines are closed.
   */
  function WrapLoop(words: seq<string>, maxChars: nat, maxLines: int, lines: seq<string>, line: string): (r: (seq<string>, string))
    requires forall k :: 0 <= k < |words| ==> ' ' !in words[k]
    requires forall k :: 0 <= k < |lines| ==> Fits(lines[k], maxChars)
    requires Fits(line, maxChars)
    requires maxLines >= 2 ==> |lines| <= maxLines - 2
    ensures forall k :: 0 <= k < |r.0| ==> Fits(r.0[k], maxChars)
    ensures Fits(r.1, maxChars)
    ensures maxLines >= 2 ==> |r.0| <= maxLines - 1
    ensures |r.0| >= |lines| && r.0[..|lines|] == lines
    decreases |words|
  {
    if |words| == 0 then (lines, line)
    else
      var w := words[0];
      var test := Extend(line, w);
      if |test| > maxChars then
        var closed := lines + [line];
        if |closed| == maxLines - 1 then (closed, w)
        else
          var r := WrapLoop(words[1..], maxChars, maxLines, closed, w);
          assert r.0[..|lines|] == r.0[..|closed|][..|lines|];
          r
      else WrapLoop(words[1..], maxChars, maxLines, lines, test)
  }

  /** The lines of `wrapText` before the ellipsis is added. */
  function WrapLines(s: string, maxChars: nat, maxLines: int): (r: seq<string>)
    ensures forall k :: 0 <= k < |r| ==> Fits(r[k], maxChars)
    ensures maxLines >= 2 ==> |r| <= maxLines
  {
    var (lines, line) := WrapLoop(SplitOn(s, " "), maxChars, maxLines, [], "");
    if line != "" then lines + [line] else lines
  }

  /** The wrapped lines, joined back with single spaces, are shorter than the label. */
  predicate Truncated(s: string, lines: seq<string>)
  {
    |Join(lines, " ")| < |s|
  }

  /**
   * `wrapText(s, maxChars, maxLines)`: the wrapped lines, with "…" appended
   * to the last one exactly when they leave part of the label out.
   */
  function WrapText(s: string, maxChars: nat, maxLines: int): (r: seq<string>)
    ensures var ls := WrapLines(s, maxChars, maxLines);
            && |r| == |ls|
            && (forall k :: 0 <= k < |r| - 1 ==> r[k] == ls[k])
            && (|r| > 0 ==> (r[|r| - 1] == ls[|ls| - 1] + [Ellipsis] <==> Truncated(s, ls)))
            && (|r| > 0 && !Truncated(s, ls) ==> r[|r| - 1] == ls[|ls| - 1])
    ensures maxLines >= 2 ==> |r| <= maxLines
  {
    var ls := WrapLines(s, maxChars, maxLines);
    if Truncated(s, ls) && |ls| > 0 then ls[..|ls| - 1] + [ls[|ls| - 1] + [Ellipsis]]
    else ls
  }

  /**
   * Before the ellipsis, every line is within the width or is one word; the
   * last line may pass the width by the ellipsis alone.
   */
  lemma WrapTextWidth(s: string, maxChars: nat, maxLines: int, k: nat)
    requires k < |WrapText(s, maxChars, maxLines)|
    ensures var r := WrapText(s, maxChars, maxLines);
            |r[k]| <= maxChars + (if k == |r| - 1 then 1 else 0) || ' ' !in r[k]
  {
    var r := WrapText(s, maxChars, maxLines);
    var ls := WrapLines(s, maxChars, maxLines);
    assert Fits(ls[k], maxChars);
    if k == |r| - 1 && Truncated(s, ls) {
      assert r[k] == ls[k] + [Ellipsis];
      assert ' ' !in ls[k] ==> ' ' !in r[k];
    }
  }

  lemma {:induction false} JoinSnoc(ws: seq<string>, w: string, sep: string)
    requires |ws| >= 1
    ensures Join(ws + [w], sep) == Join(ws, sep) + sep + w
    decreases |ws|
  {
    if |ws| > 1 {
      assert (ws + [w])[1..] == ws[1..] + [w];
      JoinSnoc(ws[1..], w, sep);
    }
  }

  lemma {:induction false} JoinPrefixShorter(ws: seq<string>, k: nat, sep: string)
    requires 1 <= k <= |ws|
    ensures |Join(ws[..k], sep)| <= |Join(ws, sep)|
    ensures |Join(ws[..k], sep)| >= |ws[0]|
    decreases |ws|
  {
    if |ws| > 1 {
      if k == 1 {
        assert ws[..1] == [ws[0]];
      } else {
        assert ws[..k][1..] == ws[1..][..k - 1];
        JoinPrefixShorter(ws[1..], k - 1, sep);
      }
    } else {
      assert ws[..k] == ws;
    }
  }

  /** While everything fits, the line is the words so far joined by single spaces. */
  lemma {:induction false} WrapLoopFits(all: seq<string>, k: nat, maxChars: nat, maxLines: int)
    requires 1 <= k <= |all| && all[0] != ""
    requires forall i :: 0 <= i < |all| ==> ' ' !in all[i]
    requires |Join(all, " ")| <= maxChars
    requires Fits(Join(all[..k], " "), maxChars)
    ensures WrapLoop(all[k..], maxChars, maxLines, [], Join(all[..k], " ")) == ([], Join(all, " "))
    decreases |all| - k
  {
    if k == |all| {
      assert all[..k] == all;
    } else {
      var line := Join(all[..k], " ");
      JoinPrefixShorter(all, k, " ");
      assert line != "";
      assert all[..k + 1] == all[..k] + [all[k]];
      JoinSnoc(all[..k], all[k], " ");
      JoinPrefixShorter(all, k + 1, " ");
      assert all[k..][0] == all[k] && all[k..][1..] == all[k + 1..];
      WrapLoopFits(all, k + 1, maxChars, maxLines);
    }
  }

  /** A short label that does not start with a space stays one line, unchanged. */
  lemma WrapTextShortLabel(s: string, maxChars: nat, maxLines: int)
    requires 0 < |s| <= maxChars && s[0] != ' '
    ensures WrapText(s, maxChars, maxLines) == [s]
  {
    var words := SplitOn(s, " ");
    JoinSplitOn(s, " ");
    assert !(" " <= s);
    assert words[0] == [s[0]] + SplitOn(s[1..], " ")[0];
    assert words[..1] == [words[0]];
    JoinPrefixShorter(words, 1, " ");
    assert words[1..] == words[1..];
    WrapLoopFits(words, 1, maxChars, maxLines);
    assert Extend("", words[0]) == words[0];
    assert WrapLoop(words, maxChars, maxLines, [], "") == WrapLoop(words[1..], maxChars, maxLines, [], Join(words[..1], " "));
  }

  /** The text of a wrapping state: its non-empty lines, closed and open, joined by spaces. */
  function Flat(lines: seq<string>, line: string): string
  {
    Join(Seqs.Filter(NonEmpty, lines + [line]), " ")
  }

  lemma {:induction false} FilterSnoc(xs: seq<string>, x: string)
    ensures Seqs.Filter(NonEmpty, xs + [x]) == Seqs.Filter(NonEmpty, xs) + (if x != "" then [x] else [])
    decreases |xs|
  {
    if |xs| == 0 {
      assert xs + [x] == [x];
    } else {
      assert (xs + [x])[1..] == xs[1..] + [x];
      FilterSnoc(xs[1..], x);
    }
  }

  /** Extending the last of several joined parts extends the joined text. */
  lemma JoinExtendLast(xs: seq<string>, a: string, w: string)
    ensures Join(xs + [a + " " + w], " ") == Join(xs + [a], " ") + " " + w
  {
    if |xs| == 0 {
      assert xs + [a + " " + w] == [a + " " + w];
      assert xs + [a] == [a];
    } else {
      JoinSnoc(xs, a + " " + w, " ");
      JoinSnoc(xs, a, " ");
    }
  }

  /** One word consumed: the words so far grow by that word. */
  lemma JoinWordsStep(all: seq<string>, k: nat)
    requires 1 <= k < |all|
    ensures Join(all[..k + 1], " ") == Join(all[..k], " ") + " " + all[k]
  {
    assert all[..k + 1] == all[..k] + [all[k]];
    JoinSnoc(all[..k], all[k], " ");
  }

  /**
   * From a state whose text is the first `k` words, the loop ends in a state
   * whose text is the first `j` words, for some `j > k` when a word is left;
   * every word is taken when the label has fewer words than the line limit.
   */
  lemma {:induction false} WrapLoopWords(all: seq<string>, k: nat, maxChars: nat, maxLines: int, lines: seq<string>, line: string)
      returns (j: nat)
    requires k <= |all|
    requires forall i :: 0 <= i < |all| ==> all[i] != "" && ' ' !in all[i]
    requires forall i :: 0 <= i < |lines| ==> Fits(lines[i], maxChars)
    requires Fits(line, maxChars)
    requires maxLines >= 2 ==> |lines| <= maxLines - 2
    requires |lines| <= k
    requires k == 0 ==> lines == [] && line == ""
    requires k > 0 ==> line != ""
    requires Flat(lines, line) == Join(all[..k], " ")
    ensures k <= j <= |all| && (k < |all| ==> k < j)
    ensures var r := WrapLoop(all[k..], maxChars, maxLines, lines, line);
            Flat(r.0, r.1) == Join(all[..j], " ")
    ensures maxLines < 2 || |all| < maxLines ==> j == |all|
    decreases |all| - k
  {
    if k == |all| {
      j := k;
    } else {
      var w := all[k];
      assert all[k..][0] == w && all[k..][1..] == all[k + 1..];
      var test := Extend(line, w);
      if |test| > maxChars {
        WrapCloseText(all, k, lines, line);
        var closed := lines + [line];
        if |closed| == maxLines - 1 {
          j := k + 1;
        } else {
          j := WrapLoopWords(all, k + 1, maxChars, maxLines, closed, w);
        }
      } else {
        WrapExtendText(all, k, lines, line);
        j := WrapLoopWords(all, k + 1, maxChars, maxLines, lines, test);
      }
    }
  }

  /** Closing the line and opening one with the next word adds that word to the text. */
  lemma WrapCloseText(all: seq<string>, k: nat, lines: seq<string>, line: string)
    requires k < |all| && all[k] != ""
    requires k == 0 ==> lines == [] && line == ""
    requires k > 0 ==> line != ""
    requires Flat(lines, line) == Join(all[..k], " ")
    ensures Flat(lines + [line], all[k]) == Join(all[..k + 1], " ")
  {
    var closed := lines + [line];
    FilterSnoc(closed, all[k]);
    if k == 0 {
      assert all[..1] == [all[0]];
      assert Seqs.Filter(NonEmpty, closed) == [];
    } else {
      FilterSnoc(lines, line);
      JoinWordsStep(all, k);
      JoinSnoc(Seqs.Filter(NonEmpty, closed), all[k], " ");
    }
  }

  /** Appending the next word to the open line adds that word to the text. */
  lemma WrapExtendText(all: seq<string>, k: nat, lines: seq<string>, line: string)
    requires k < |all| && all[k] != ""
    requires k == 0 ==> lines == [] && line == ""
    requires k > 0 ==> line != ""
    requires Flat(lines, line) == Join(all[..k], " ")
    ensures Flat(lines, Extend(line, all[k])) == Join(all[..k + 1], " ")
  {
    var w := all[k];
    FilterSnoc(lines, Extend(line, w));
    if k == 0 {
      assert all[..1] == [w];
    } else {
      FilterSnoc(lines, line);
      JoinWordsStep(all, k);
      JoinExtendLast(Seqs.Filter(NonEmpty, lines), line, w);
    }
  }

  /**
   * The wrapped lines are consecutive words of the label, in order: for a
   * label of single-space-separated words, the non-empty lines joined by
   * spaces are its first `j` words, and are the whole label when it has
   * fewer words than the line limit (or the limit is below 2).
   */
  lemma WrapLinesWords(s: string, maxChars: nat, maxLines: int) returns (j: nat)
    requires forall i :: 0 <= i < |SplitOn(s, " ")| ==> SplitOn(s, " ")[i] != ""
    ensures var words := SplitOn(s, " ");
            && 1 <= j <= |words|
            && Join(Seqs.Filter(NonEmpty, WrapLines(s, maxChars, maxLines)), " ") == Join(words[..j], " ")
            && (maxLines < 2 || |words| < maxLines ==> Join(Seqs.Filter(NonEmpty, WrapLines(s, maxChars, maxLines)), " ") == s)
  {
    var words := SplitOn(s, " ");
    assert words[0..] == words;
    assert Flat([], "") == Join(words[..0], " ");
    j := WrapLoopWords(words, 0, maxChars, maxLines, [], "");
    var r := WrapLoop(words, maxChars, maxLines, [], "");
    assert WrapLines(s, maxChars, maxLines) == if r.1 != "" then r.0 + [r.1] else r.0;
    FilterSnoc(r.0, r.1);
    assert Seqs.Filter(NonEmpty, WrapLines(s, maxChars, maxLines)) == Seqs.Filter(NonEmpty, r.0 + [r.1]);
    assert Flat(r.0, r.1) == Join(words[..j], " ");
    assert words[..|words|] == words;
    JoinSplitOn(s, " ");
  }

  /* ---------------- axis tick ---------------- */

  predicate SomeRowLonger(rows: seq<string>, maxChars: nat)
  {
    exists k :: 0 <= k < |rows| && |rows[k]| > maxChars
  }

  /** `LeftTick`'s rows: the abbreviated label, wrapped. */
  function TickRows(value: string, maxChars: nat, lines: int): (r: seq<string>)
    ensures lines >= 2 ==> |r| <= lines
    ensures forall k :: 0 <= k < |r| - 1 ==> |r[k]| <= maxChars || ' ' !in r[k]
  {
    var r := WrapText(Abbreviate(value), maxChars, lines);
    assert forall k :: 0 <= k < |r| - 1 ==> Fits(r[k], maxChars) by {
      var ls := WrapLines(Abbreviate(value), maxChars, lines);
      forall k | 0 <= k < |r| - 1 ensures Fits(r[k], maxChars) {
        assert r[k] == ls[k];
      }
    }
    r
  }

  /** `LeftTick`'s font size: 11 when some row is wider than `maxChars`, else 12. */
  function TickFontSize(value: string, maxChars: nat, lines: int): (f: int)
    ensures f == 11 || f == 12
    ensures var rows := TickRows(value, maxChars, lines);
            f == 11 <==> exists k :: 0 <= k < |rows| && |rows[k]| > maxChars
  {
    if SomeRowLonger(TickRows(value, maxChars, lines), maxChars) then 11 else 12
  }

  /** A label that fits on one line after abbreviation gets the regular size. */
  lemma TickFontSizeShortLabel(value: string, maxChars: nat, lines: int)
    requires 0 < |Abbreviate(value)| <= maxChars && Abbreviate(value)[0] != ' '
    ensures TickRows(value, maxChars, lines) == [Abbreviate(value)]
    ensures TickFontSize(value, maxChars, lines) == 12
  {
    WrapTextShortLabel(Abbreviate(value), maxChars, lines);
  }

  /**
   * The small size means some row is one word wider than `maxChars`, or the
   * last row reached the width before the ellipsis was added.
   */
  lemma TickFontSizeSmall(value: string, maxChars: nat, lines: int)
    requires TickFontSize(value, maxChars, lines) == 11
    ensures var rows := TickRows(value, maxChars, lines);
            exists k :: 0 <= k < |rows| && (' ' !in rows[k] || (k == |rows| - 1 && |rows[k]| == maxChars + 1))
  {
    var rows := TickRows(value, maxChars, lines);
    var k :| 0 <= k < |rows| && |rows[k]| > maxChars;
    WrapTextWidth(Abbreviate(value), maxChars, lines, k);
  }
}
