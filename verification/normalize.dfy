/**
 * The record normaliser of the Discogs collection panel: helpers that read a
 * year, clean a label or artist name, look up a CSV column under alternative
 * headers, split multi-valued cells and classify a format, and the two
 * normalisers that turn an API release or a CSV row into one `Record`.
 */
module Normalize {
  import opened Wrappers
  import opened Text
  import Seqs

  /* ---------------- toYear ---------------- */

  /** Four digits start at index `i`. */
  predicate FourDigitsAt(s: string, i: nat)
  {
    i + 4 <= |s| && AllDigits(s[i..i + 4])
  }

  /** `i` is where `/(\d{4})/` matches: the first run of four digits. */
  predicate FirstRunAt(s: string, i: nat)
  {
    FourDigitsAt(s, i) && forall j :: 0 <= j < i ==> !FourDigitsAt(s, j)
  }

  /** Leftmost index at or after `from` where four digits start. */
  function FindFourDigits(s: string, from: nat): (r: Option<nat>)
    requires from <= |s|
    ensures r.Some? ==> from <= r.value && FourDigitsAt(s, r.value)
    ensures r.Some? ==> forall j :: from <= j < r.value ==> !FourDigitsAt(s, j)
    ensures r.None? ==> forall j :: from <= j ==> !FourDigitsAt(s, j)
    decreases |s| - from
  {
    if from + 4 > |s| then None
    else if FourDigitsAt(s, from) then Some(from)
    else FindFourDigits(s, from + 1)
  }

  /** A digit is never whitespace, so no run of four digits starts in the leading whitespace. */
  lemma NoRunInLeadingSpaces(s: string, j: nat)
    requires j < LeadingSpaces(s)
    ensures !FourDigitsAt(s, j)
  {
    if j + 4 <= |s| {
      assert s[j..j + 4][0] == s[j];
    }
  }

  /** Trimming moves every run of digits by the number of leading spaces. */
  lemma TrimShiftsRuns(s: string, i: nat)
    ensures FourDigitsAt(Trim(s), i) <==> FourDigitsAt(s, LeadingSpaces(s) + i)
  {
    ShiftRuns(s, Trim(s), LeadingSpaces(s), i);
  }

  /** Runs of `t`, a piece of `s` followed only by whitespace, are runs of `s` shifted by `l`. */
  lemma ShiftRuns(s: string, t: string, l: nat, i: nat)
    requires l + |t| <= |s| && t == s[l..l + |t|]
    requires forall j :: l + |t| <= j < |s| ==> IsSpace(s[j])
    ensures FourDigitsAt(t, i) <==> FourDigitsAt(s, l + i)
  {
    if i + 4 <= |t| {
      var u, w := t[i..i + 4], s[l + i..l + i + 4];
      forall k | 0 <= k < 4 ensures u[k] == w[k] {
        assert t[i + k] == s[l + i + k];
      }
      assert u == w;
    } else if l + i + 4 <= |s| {
      assert s[l + i..l + i + 4][3] == s[l + i + 3];
    }
  }

  /** A slice of the trimmed text is the same slice of the original, shifted. */
  lemma {:induction false} TrimSlice(s: string, a: nat, b: nat)
    requires a <= b <= |Trim(s)|
    ensures LeadingSpaces(s) + b <= |s|
    ensures Trim(s)[a..b] == s[LeadingSpaces(s) + a..LeadingSpaces(s) + b]
  {
    SubSlice(s, Trim(s), LeadingSpaces(s), a, b);
  }

  /** A slice of a window `t` of `s` starting at `l` is the same slice of `s`, shifted. */
  lemma SubSlice(s: string, t: string, l: nat, a: nat, b: nat)
    requires l + |t| <= |s| && t == s[l..l + |t|] && a <= b <= |t|
    ensures t[a..b] == s[l + a..l + b]
  {
    var x, y := t[a..b], s[l + a..l + b];
    assert |x| == |y|;
    forall k | 0 <= k < |x| ensures x[k] == y[k] {
      assert x[k] == t[a + k] == s[l + a + k];
    }
  }

  /** Every run of the original is a run of the trimmed text, shifted. */
  lemma RunsSurviveTrim(v: string, i: nat)
    requires FourDigitsAt(v, i)
    ensures i >= LeadingSpaces(v) && FourDigitsAt(Trim(v), i - LeadingSpaces(v))
  {
    if i < LeadingSpaces(v) {
      NoRunInLeadingSpaces(v, i);
    } else {
      TrimShiftsRuns(v, i - LeadingSpaces(v));
    }
  }

  /** Trimming finds no run where there is none. */
  lemma TrimNoRuns(v: string)
    requires forall k: nat :: !FourDigitsAt(Trim(v), k)
    ensures forall i: nat :: !FourDigitsAt(v, i)
  {
    forall i: nat | FourDigitsAt(v, i)
      ensures false
    {
      RunsSurviveTrim(v, i);
    }
  }

  /** The first run of the trimmed text is the first run of the original. */
  lemma {:induction false} TrimFirstRun(v: string, k: nat)
    requires FirstRunAt(Trim(v), k)
    ensures FirstRunAt(v, LeadingSpaces(v) + k)
  {
    TrimShiftsRuns(v, k);
    forall j: nat | j < LeadingSpaces(v) + k && FourDigitsAt(v, j)
      ensures false
    {
      RunsSurviveTrim(v, j);
    }
  }

  /**
   * `toYear`: missing, blank and digit-free values have no year; otherwise the
   * first run of four digits is read and accepted only within [1900, 2100].
   */
  function ToYear(value: Option<string>): (r: Option<int>)
    ensures value.None? ==> r.None?
    ensures value.Some? && (forall i: nat :: !FourDigitsAt(value.value, i)) ==> r.None?
    ensures r.Some? ==> 1900 <= r.value <= 2100
  {
    if value.None? then None
    else
      var s := Trim(value.value);
      if |s| == 0 then
        TrimNoRuns(value.value);
        None
      else
        match FindFourDigits(s, 0)
        case None =>
          TrimNoRuns(value.value);
          None
        case Some(k) =>
          TrimShiftsRuns(value.value, k);
          var y := DigitsValue(s[k..k + 4]);
          if y < 1900 || y > 2100 then None else Some(y)
  }

  lemma FirstRunUnique(v: string, i: nat, j: nat)
    requires FirstRunAt(v, i) && FirstRunAt(v, j)
    ensures i == j
  {
  }

  /** A value whose first run of four digits starts at `i` is read from that run. */
  lemma ToYearFirstRun(v: string, i: nat)
    requires FirstRunAt(v, i)
    ensures ToYear(Some(v)) ==
              (var y := DigitsValue(v[i..i + 4]); if 1900 <= y <= 2100 then Some(y) else None)
  {
    var s := Trim(v);
    if |s| == 0 || FindFourDigits(s, 0).None? {
      TrimNoRuns(v);
      assert false;
    } else {
      var k := FindFourDigits(s, 0).value;
      assert FirstRunAt(s, k);
      TrimFirstRun(v, k);
      FirstRunUnique(v, i, LeadingSpaces(v) + k);
      TrimSlice(v, k, k + 4);
      assert s[k..k + 4] == v[i..i + 4];
    }
  }

  /**
   * A value that starts with an in-range year, as a CSV "Released" cell such as
   * "1977-03-02" does, is read as that year, whatever follows it: the first
   * four digits of "19771" are still 1977.
   */
  lemma ToYearLeadingYear(y: int, rest: string)
    requires 1900 <= y <= 2100
    ensures ToYear(Some(IntToString(y) + rest)) == Some(y)
  {
    var d := IntToString(y);
    var s := d + rest;
    assert |d| == 4;
    assert s[0..4] == d;
    assert FirstRunAt(s, 0);
    ToYearFirstRun(s, 0);
  }

  /** `${Math.floor(year / 10) * 10}s`. */
  function DecadeLabel(year: int): string
  {
    IntToString(Floor10(year)) + "s"
  }

  /** `Math.floor(year / 10) * 10`. */
  function Floor10(year: int): (d: int)
    ensures d <= year < d + 10 && d % 10 == 0
  {
    (year / 10) * 10
  }

  /* ---------------- clean ---------------- */

  predicate NoLineTerminators(s: string)
  {
    forall i :: 0 <= i < |s| ==> !IsLineTerminator(s[i])
  }

  /** `c` does not occur in `s`. */
  predicate Lacks(s: string, c: char)
  {
    forall i :: 0 <= i < |s| ==> s[i] != c
  }

  /** No `(` is followed, anywhere later, by a `)`. */
  predicate NoParenPair(s: string)
  {
    forall i, j :: 0 <= i < |s| && 0 <= j < |s| && i < j && s[i] == '(' ==> s[j] != ')'
  }

  /**
   * Where the lazy `.*?\)` starting at `i` stops: the first `)`, provided no
   * line terminator comes before it.
   */
  function CloseParen(s: string, i: nat): (r: Option<nat>)
    requires i <= |s|
    ensures r.Some? ==> i <= r.value < |s| && s[r.value] == ')'
    ensures r.None? && NoLineTerminators(s) ==> forall j :: i <= j < |s| ==> s[j] != ')'
    decreases |s| - i
  {
    if i == |s| then None
    else if s[i] == ')' then Some(i)
    else if IsLineTerminator(s[i]) then None
    else CloseParen(s, i + 1)
  }

  /** Length of the match of `\s*\(.*?\)\s*` at the start of `s`, if any. */
  function GroupMatch(s: string): (r: Option<nat>)
    ensures r.Some? ==> 2 <= r.value <= |s|
    ensures r.Some? ==> r.value == |s| || !IsSpace(s[r.value])
    ensures r.Some? ==> exists i, j :: 0 <= i < j < r.value && s[i] == '(' && s[j] == ')'
  {
    var k := LeadingSpaces(s);
    if k < |s| && s[k] == '(' then
      match CloseParen(s, k + 1)
      case Some(j) =>
        var m := LeadingSpaces(s[j + 1..]);
        assert j + 1 + m < |s| ==> s[j + 1 + m] == s[j + 1..][m];
        Some(j + 1 + m)
      case None => None
    else None
  }

  /**
   * The global replacement of `\s*\(.*?\)\s*` by "": removes every
   * parenthesised group together with its surrounding whitespace.
   */
  function StripGroups(s: string): (r: string)
    ensures |r| <= |s|
    ensures |r| > 0 && IsSpace(r[0]) ==> IsSpace(s[0])
    ensures Lacks(s, ')') ==> Lacks(r, ')')
    decreases |s|
  {
    if |s| == 0 then ""
    else match GroupMatch(s)
      case Some(e) => StripGroups(s[e..])
      case None => [s[0]] + StripGroups(s[1..])
  }

  lemma StripGroupsEmit(s: string)
    requires |s| > 0 && GroupMatch(s).None?
    ensures StripGroups(s) == [s[0]] + StripGroups(s[1..])
  {
  }

  lemma StripGroupsSkip(s: string)
    requires |s| > 0 && GroupMatch(s).Some?
    ensures StripGroups(s) == StripGroups(s[GroupMatch(s).value..])
  {
  }

  lemma SingleSpacedSlice(s: string, a: nat, b: nat)
    requires a <= b <= |s| && SingleSpaced(s)
    ensures SingleSpaced(s[a..b])
  {
    var t := s[a..b];
    forall i, j | 0 <= i < |t| && 0 <= j < |t| && j == i + 1 && IsSpace(t[i])
      ensures !IsSpace(t[j])
    {
      assert t[i] == s[a + i] && t[j] == s[a + j];
    }
  }

  lemma SingleSpacedCons(c: char, t: string)
    requires SingleSpaced(t)
    requires IsSpace(c) ==> c == ' ' && (|t| == 0 || !IsSpace(t[0]))
    ensures SingleSpaced([c] + t)
  {
    var u := [c] + t;
    forall i, j | 0 <= i < |u| && 0 <= j < |u| && j == i + 1 && IsSpace(u[i])
      ensures !IsSpace(u[j])
    {
      if i > 0 {
        assert u[i] == t[i - 1] && u[j] == t[j - 1];
      }
    }
  }

  /** Removing groups never creates a whitespace run. */
  lemma {:induction false} StripGroupsSingleSpaced(s: string)
    requires SingleSpaced(s)
    ensures SingleSpaced(StripGroups(s))
    decreases |s|
  {
    if |s| > 0 {
      match GroupMatch(s)
      case Some(e) =>
        SingleSpacedSlice(s, e, |s|);
        StripGroupsSingleSpaced(s[e..]);
        StripGroupsSkip(s);
      case None =>
        SingleSpacedSlice(s, 1, |s|);
        StripGroupsSingleSpaced(s[1..]);
        StripGroupsEmit(s);
        var t := StripGroups(s[1..]);
        assert IsSpace(s[0]) ==> |t| == 0 || !IsSpace(t[0]) by {
          if IsSpace(s[0]) && |s| > 1 {
            assert !IsSpace(s[1]) && s[1..][0] == s[1];
          }
        }
        SingleSpacedCons(s[0], t);
    }
  }

  lemma NoParenPairCons(c: char, t: string)
    requires NoParenPair(t)
    requires c == '(' ==> Lacks(t, ')')
    ensures NoParenPair([c] + t)
  {
    var u := [c] + t;
    forall i, j | 0 <= i < |u| && 0 <= j < |u| && i < j && u[i] == '('
      ensures u[j] != ')'
    {
      assert u[j] == t[j - 1];
      if i > 0 {
        assert u[i] == t[i - 1];
      }
    }
  }

  /** Without line terminators, no group survives the removal. */
  lemma {:induction false} StripGroupsNoPair(s: string)
    requires NoLineTerminators(s)
    ensures NoParenPair(StripGroups(s))
    decreases |s|
  {
    if |s| > 0 {
      match GroupMatch(s)
      case Some(e) =>
        assert NoLineTerminators(s[e..]) by {
          forall i | 0 <= i < |s[e..]| ensures !IsLineTerminator(s[e..][i]) {
            assert s[e..][i] == s[e + i];
          }
        }
        StripGroupsNoPair(s[e..]);
        StripGroupsSkip(s);
      case None =>
        assert NoLineTerminators(s[1..]) by {
          forall i | 0 <= i < |s[1..]| ensures !IsLineTerminator(s[1..][i]) {
            assert s[1..][i] == s[1 + i];
          }
        }
        StripGroupsNoPair(s[1..]);
        StripGroupsEmit(s);
        if s[0] == '(' {
          assert LeadingSpaces(s) == 0;
          assert CloseParen(s, 1).None?;
          assert Lacks(s[1..], ')') by {
            forall i | 0 <= i < |s[1..]| ensures s[1..][i] != ')' {
              assert s[1..][i] == s[1 + i];
            }
          }
        }
        NoParenPairCons(s[0], StripGroups(s[1..]));
    }
  }

  /** A string without groups is left unchanged. */
  lemma {:induction false} StripGroupsNoop(s: string)
    requires NoParenPair(s)
    ensures StripGroups(s) == s
    decreases |s|
  {
    if |s| > 0 {
      assert GroupMatch(s).None?;
      assert NoParenPair(s[1..]) by {
        NoParenPairSlice(s, 1, |s|);
      }
      StripGroupsNoop(s[1..]);
      StripGroupsEmit(s);
    }
  }

  /** A prefix without `(` that ends in a non-space is copied through unchanged. */
  lemma {:induction false} StripGroupsPrefix(a: string, b: string)
    requires Lacks(a, '(')
    requires |a| == 0 || !IsSpace(a[|a| - 1])
    ensures StripGroups(a + b) == a + StripGroups(b)
    decreases |a|
  {
    if |a| == 0 {
      assert a + b == b;
    } else {
      var s := a + b;
      NoGroupAtPrefix(a, b);
      StripGroupsEmit(s);
      assert s[0] == a[0] && s[1..] == a[1..] + b;
      var a' := a[1..];
      assert Lacks(a', '(') by {
        forall i | 0 <= i < |a'| ensures a'[i] != '(' {
          assert a'[i] == a[i + 1];
        }
      }
      assert |a'| == 0 || a'[|a'| - 1] == a[|a| - 1];
      StripGroupsPrefix(a', b);
      assert a == [a[0]] + a';
      SeqAssoc([a[0]], a', StripGroups(b));
    }
  }

  lemma NoGroupAtPrefix(a: string, b: string)
    requires |a| > 0 && Lacks(a, '(') && !IsSpace(a[|a| - 1])
    ensures GroupMatch(a + b).None?
  {
    var s := a + b;
    assert LeadingSpaces(a) < |a|;
    LeadingSpacesAppend(a, b);
    var k := LeadingSpaces(s);
    assert s[k] == a[k];
  }

  lemma NoParenPairSlice(s: string, a: nat, b: nat)
    requires a <= b <= |s| && NoParenPair(s)
    ensures NoParenPair(s[a..b])
  {
    var t := s[a..b];
    forall i, j | 0 <= i < |t| && 0 <= j < |t| && i < j && t[i] == '('
      ensures t[j] != ')'
    {
      assert t[i] == s[a + i] && t[j] == s[a + j];
    }
  }

  /** What `clean` guarantees of every name it returns. */
  predicate CleanName(s: string)
  {
    Trimmed(s) && SingleSpaced(s) && NoParenPair(s)
  }

  /**
   * `clean`: collapse whitespace, drop parenthesised groups with their
   * surrounding whitespace, trim. The result has no whitespace at either end,
   * no whitespace run and no `(` followed by a `)`.
   */
  function Clean(s: string): (r: string)
    ensures Trimmed(r) && SingleSpaced(r) && NoParenPair(r)
    ensures Lacks(s, '(') ==> r == Trim(Collapse(s))
  {
    CleanShape(s);
    NoGroupsToStrip(s);
    Trim(StripGroups(Collapse(s)))
  }

  /** Collapsing, stripping the groups and trimming leave a clean name. */
  lemma CleanShape(s: string)
    ensures var r := Trim(StripGroups(Collapse(s)));
            Trimmed(r) && SingleSpaced(r) && NoParenPair(r)
  {
    var c := Collapse(s);
    CollapseSingleSpaced(s);
    SingleSpacedNoTerminators(c);
    var g := StripGroups(c);
    StripGroupsSingleSpaced(c);
    StripGroupsNoPair(c);
    TrimKeepsShape(g);
  }

  lemma TrimKeepsShape(g: string)
    requires SingleSpaced(g) && NoParenPair(g)
    ensures SingleSpaced(Trim(g)) && NoParenPair(Trim(g))
  {
    var r := Trim(g);
    SingleSpacedSlice(g, LeadingSpaces(g), LeadingSpaces(g) + |r|);
    NoParenPairSlice(g, LeadingSpaces(g), LeadingSpaces(g) + |r|);
  }


  /** Collapsing whitespace never introduces a character that is not whitespace. */
  lemma {:induction false} CollapseKeepsLacks(s: string, c: char)
    requires !IsSpace(c)
    ensures Lacks(s, c) ==> Lacks(Collapse(s), c)
    decreases |s|
  {
    if |s| > 0 && Lacks(s, c) {
      var k := if IsSpace(s[0]) then LeadingSpaces(s) else 1;
      assert Lacks(s[k..], c) by {
        forall i | 0 <= i < |s[k..]| ensures s[k..][i] != c {
          assert s[k..][i] == s[k + i];
        }
      }
      CollapseKeepsLacks(s[k..], c);
      if IsSpace(s[0]) {
        CollapseSpaceHead(s);
      } else {
        CollapseWordHead(s);
      }
    }
  }

  /** Without any `(` there is no group to remove. */
  lemma NoGroupsToStrip(s: string)
    ensures Lacks(s, '(') ==> StripGroups(Collapse(s)) == Collapse(s)
  {
    if Lacks(s, '(') {
      CollapseKeepsLacks(s, '(');
      StripGroupsNoop(Collapse(s));
    }
  }

  /** A single-spaced text holds no line terminator. */
  lemma SingleSpacedNoTerminators(c: string)
    requires SingleSpaced(c)
    ensures NoLineTerminators(c)
  {
    forall i | 0 <= i < |c| ensures !IsLineTerminator(c[i]) {
      if IsSpace(c[i]) {
        assert c[i] == ' ';
      }
    }
  }

  /** Cleaning is idempotent. */
  lemma CleanIdempotent(s: string)
    ensures Clean(Clean(s)) == Clean(s)
  {
    var t := Clean(s);
    CollapseFixed(t);
    StripGroupsNoop(t);
  }

  /**
   * A trailing group is removed together with the space before it:
   * "Columbia Records (2)" cleans to "Columbia Records".
   */
  lemma CleanDropsTrailingGroup(name: string, inner: string)
    requires |name| > 0 && Trimmed(name) && SingleSpaced(name) && Lacks(name, '(')
    requires forall i :: 0 <= i < |inner| ==> !IsSpace(inner[i]) && inner[i] != ')'
    ensures Clean(name + " (" + inner + ")") == name
  {
    var tail := " (" + inner + ")";
    SeqAssoc(name, " (" + inner, ")");
    SeqAssoc(name, " (", inner);
    var s := name + tail;
    TailSingleSpaced(name, inner);
    CollapseFixed(s);
    StripTrailingGroup(name, inner, tail);
    CleanUnfold(s);
  }

  lemma StripTrailingGroup(name: string, inner: string, tail: string)
    requires |name| > 0 && !IsSpace(name[|name| - 1]) && Lacks(name, '(')
    requires forall i :: 0 <= i < |inner| ==> !IsSpace(inner[i]) && inner[i] != ')'
    requires tail == " (" + inner + ")"
    ensures StripGroups(name + tail) == name
  {
    assert |tail| == |inner| + 3;
    TailIsOneGroup(inner);
    StripGroupsSkip(tail);
    assert tail[|inner| + 3..] == [];
    assert StripGroups(tail) == [];
    StripGroupsPrefix(name, tail);
    assert name + [] == name;
  }

  lemma CleanUnfold(s: string)
    ensures Clean(s) == Trim(StripGroups(Collapse(s)))
  {
  }

  lemma TailSingleSpaced(name: string, inner: string)
    requires |name| > 0 && Trimmed(name) && SingleSpaced(name)
    requires forall i :: 0 <= i < |inner| ==> !IsSpace(inner[i])
    ensures SingleSpaced(name + (" (" + inner + ")"))
  {
    var tail := " (" + inner + ")";
    var s := name + tail;
    assert forall i :: 0 <= i < |name| ==> s[i] == name[i];
    assert forall i :: |name| <= i < |s| ==> s[i] == tail[i - |name|];
    assert forall i :: 1 <= i < |tail| ==> !IsSpace(tail[i]) by {
      forall i | 1 <= i < |tail| ensures !IsSpace(tail[i]) {
        if 2 <= i < |tail| - 1 {
          assert tail[i] == inner[i - 2];
        }
      }
    }
  }

  /** `" (" + inner + ")"` is matched as one whole group. */
  lemma TailIsOneGroup(inner: string)
    requires forall i :: 0 <= i < |inner| ==> !IsSpace(inner[i]) && inner[i] != ')'
    ensures GroupMatch(" (" + inner + ")") == Some(|inner| + 3)
  {
    var tail := " (" + inner + ")";
    assert LeadingSpaces(tail) == 1 by {
      assert tail[1..][0] == '(';
    }
    CloseParenOfTail(tail, inner);
    assert tail[|tail|..] == "";
  }

  lemma CloseParenOfTail(tail: string, inner: string)
    requires forall i :: 0 <= i < |inner| ==> !IsSpace(inner[i]) && inner[i] != ')'
    requires tail == " (" + inner + ")"
    ensures CloseParen(tail, 2) == Some(|tail| - 1)
  {
    var i := |tail| - 1;
    while i > 2
      invariant 2 <= i <= |tail| - 1
      invariant CloseParen(tail, i) == Some(|tail| - 1)
    {
      assert tail[i - 1] == inner[i - 3];
      i := i - 1;
    }
  }

  /**
   * A group between two words goes together with the whitespace on both
   * sides, so the words are joined: "Simon (2) Garfunkel" cleans to
   * "SimonGarfunkel".
   */
  lemma CleanDropsMiddleGroup(a: string, inner: string, b: string)
    requires |a| > 0 && Trimmed(a) && SingleSpaced(a) && Lacks(a, '(')
    requires |b| > 0 && Trimmed(b) && SingleSpaced(b) && Lacks(b, '(')
    requires forall i :: 0 <= i < |inner| ==> !IsSpace(inner[i]) && inner[i] != ')'
    ensures Clean(a + " (" + inner + ") " + b) == a + b
  {
    var tail := " (" + inner + ")";
    var s := a + tail + (" " + b);
    assert a + " (" + inner + ") " + b == s;
    MiddleGroupSingleSpaced(a, tail, inner, b);
    CollapseFixed(s);
    StripMiddleGroup(a, tail, inner, b);
    CleanUnfold(s);
  }

  lemma MiddleGroupSingleSpaced(a: string, tail: string, inner: string, b: string)
    requires |a| > 0 && Trimmed(a) && SingleSpaced(a)
    requires |b| > 0 && Trimmed(b) && SingleSpaced(b)
    requires forall i :: 0 <= i < |inner| ==> !IsSpace(inner[i])
    requires tail == " (" + inner + ")"
    ensures SingleSpaced(a + tail + (" " + b))
  {
    TailSingleSpaced(a, inner);
    SingleSpacedCons(' ', b);
    SingleSpacedAppend(a + tail, " " + b);
  }

  lemma StripMiddleGroup(a: string, tail: string, inner: string, b: string)
    requires |a| > 0 && !IsSpace(a[|a| - 1]) && Lacks(a, '(')
    requires |b| > 0 && !IsSpace(b[0]) && Lacks(b, '(')
    requires forall i :: 0 <= i < |inner| ==> !IsSpace(inner[i]) && inner[i] != ')'
    requires tail == " (" + inner + ")"
    ensures StripGroups(a + tail + (" " + b)) == a + b
  {
    var rest := tail + (" " + b);
    SeqAssoc(a, tail, " " + b);
    StripGroupsPrefix(a, rest);
    GroupThenSpace(inner, b);
    StripGroupsSkip(rest);
    assert rest[|tail| + 1..] == b;
    StripGroupsNoop(b);
  }

  /** Two single-spaced texts stay single-spaced when the first does not end in whitespace. */
  lemma SingleSpacedAppend(x: string, y: string)
    requires SingleSpaced(x) && SingleSpaced(y)
    requires |x| == 0 || !IsSpace(x[|x| - 1])
    ensures SingleSpaced(x + y)
  {
    var u := x + y;
    forall i, j | 0 <= i < |u| && 0 <= j < |u| && j == i + 1 && IsSpace(u[i])
      ensures !IsSpace(u[j])
    {
      if j < |x| {
        assert u[i] == x[i] && u[j] == x[j];
      } else if i >= |x| {
        assert u[i] == y[i - |x|] && u[j] == y[j - |x|];
      }
    }
  }

  /** `" (" + inner + ") " + b` starts with one group that takes both spaces. */
  lemma GroupThenSpace(inner: string, b: string)
    requires |b| > 0 && !IsSpace(b[0])
    requires forall i :: 0 <= i < |inner| ==> !IsSpace(inner[i]) && inner[i] != ')'
    ensures GroupMatch(" (" + inner + ")" + (" " + b)) == Some(|inner| + 4)
  {
    var u := " (" + inner + ")" + (" " + b);
    assert LeadingSpaces(u) == 1 by {
      assert u[1..][0] == '(';
    }
    forall k | 2 <= k < |inner| + 2
      ensures u[k] != ')' && !IsLineTerminator(u[k])
    {
      assert u[k] == inner[k - 2];
    }
    assert u[|inner| + 2] == ')';
    CloseParenAt(u, 2, |inner| + 2);
    assert u[|inner| + 3..] == " " + b;
    assert LeadingSpaces(" " + b) == 1 by {
      assert (" " + b)[1..] == b;
    }
  }

  /** The scan for ')' stops at the first one when no line break comes before it. */
  lemma {:induction false} CloseParenAt(s: string, i: nat, j: nat)
    requires i <= j < |s| && s[j] == ')'
    requires forall k :: i <= k < j ==> s[k] != ')' && !IsLineTerminator(s[k])
    ensures CloseParen(s, i) == Some(j)
    decreases j - i
  {
    if i < j {
      CloseParenAt(s, i + 1, j);
    }
  }


  lemma CleanSimonGarfunkelExample()
    ensures Clean("Simon (2) Garfunkel") == "SimonGarfunkel"
  {
    var a, b := "Simon", "Garfunkel";
    WordName(a);
    WordName(b);
    CleanDropsMiddleGroup(a, "2", b);
    assert a + " (" + "2" + ") " + b == "Simon (2) Garfunkel";
    assert a + b == "SimonGarfunkel";
  }

  /** A word of letters only is a clean name without `(`. */
  lemma WordName(w: string)
    requires |w| > 0 && forall i :: 0 <= i < |w| ==> 'A' <= w[i] <= 'z'
    ensures Trimmed(w) && SingleSpaced(w) && Lacks(w, '(')
  {
  }

  lemma CleanColumbiaExample()
    ensures Clean("Columbia Records (2)") == "Columbia Records"
  {
    var name := "Columbia Records";
    ColumbiaName(name);
    CleanDropsTrailingGroup(name, "2");
    assert name + " (" + "2" + ")" == "Columbia Records (2)";
  }

  lemma ColumbiaName(name: string)
    requires name == "Columbia Records"
    ensures |name| > 0 && Trimmed(name) && SingleSpaced(name) && Lacks(name, '(')
  {
    forall i | 0 <= i < |name| && IsSpace(name[i]) ensures name[i] == ' ' {}
    forall i, j | 0 <= i < |name| && 0 <= j < |name| && j == i + 1 && IsSpace(name[i])
      ensures !IsSpace(name[j])
    {}
  }

  /* ---------------- pick ---------------- */

  /** Column `k` holds a value that is neither missing nor "". */
  predicate Present(row: map<string, string>, k: string)
  {
    k in row && row[k] != ""
  }

  /**
   * `pick`: the value of the earliest listed header that is present and not
   * empty, or `None` when there is none.
   */
  function Pick(row: map<string, string>, keys: seq<string>): (r: Option<string>)
    ensures r.None? <==> forall i :: 0 <= i < |keys| ==> !Present(row, keys[i])
    ensures r.Some? ==> exists i :: 0 <= i < |keys| && Present(row, keys[i]) && r.value == row[keys[i]]
                          && forall j :: 0 <= j < i ==> !Present(row, keys[j])
    ensures r.Some? ==> r.value != ""
  {
    if |keys| == 0 then None
    else if Present(row, keys[0]) then Some(row[keys[0]])
    else
      var r := Pick(row, keys[1..]);
      assert forall i :: 1 <= i < |keys| ==> keys[i] == keys[1..][i - 1];
      if r.Some? then
        var i :| 0 <= i < |keys[1..]| && Present(row, keys[1..][i]) && r.value == row[keys[1..][i]]
                 && forall j :: 0 <= j < i ==> !Present(row, keys[1..][j]);
        assert Present(row, keys[i + 1]) && forall j :: 0 <= j < i + 1 ==> !Present(row, keys[j]);
        r
      else r
  }

  /* ---------------- splitMulti ---------------- */

  predicate IsListSep(c: char)
  {
    c == ',' || c == ';'
  }

  /** Length of the run of `,`/`;` at the start of `s`. */
  function SepRun(s: string): (n: nat)
    ensures n <= |s|
    ensures forall i :: 0 <= i < n ==> IsListSep(s[i])
    ensures n < |s| ==> !IsListSep(s[n])
  {
    if |s| > 0 && IsListSep(s[0]) then 1 + SepRun(s[1..]) else 0
  }

  /** `s.split(/[,;]+/)`: every maximal run of separators splits. */
  function SplitRuns(s: string): (r: seq<string>)
    ensures |r| >= 1
    decreases |s|
  {
    if |s| == 0 then [""]
    else if IsListSep(s[0]) then [""] + SplitRuns(s[SepRun(s)..])
    else
      var t := SplitRuns(s[1..]);
      [[s[0]] + t[0]] + t[1..]
  }

  /** Splitting at every single separator character: the reference for `SplitRuns`. */
  function SplitEach(s: string): (r: seq<string>)
    ensures |r| >= 1
    ensures forall i, j :: 0 <= i < |r| && 0 <= j < |r[i]| ==> !IsListSep(r[i][j])
    decreases |s|
  {
    if |s| == 0 then [""]
    else if IsListSep(s[0]) then [""] + SplitEach(s[1..])
    else
      var t := SplitEach(s[1..]);
      [[s[0]] + t[0]] + t[1..]
  }

  /** `.map((x) => x.trim()).filter(Boolean)`. */
  function TrimmedPieces(ps: seq<string>): (r: seq<string>)
    ensures forall i :: 0 <= i < |r| ==> |r[i]| > 0 && Trimmed(r[i])
  {
    if |ps| == 0 then []
    else
      var t := Trim(ps[0]);
      (if |t| > 0 then [t] else []) + TrimmedPieces(ps[1..])
  }

  lemma {:induction false} TrimmedPiecesAppend(a: seq<string>, b: seq<string>)
    ensures TrimmedPieces(a + b) == TrimmedPieces(a) + TrimmedPieces(b)
    decreases |a|
  {
    if |a| == 0 {
      assert a + b == b;
    } else {
      assert (a + b)[0] == a[0] && (a + b)[1..] == a[1..] + b;
      TrimmedPiecesAppend(a[1..], b);
    }
  }

  lemma TrimmedPiecesEmptyHead(ps: seq<string>)
    requires |ps| > 0 && ps[0] == ""
    ensures TrimmedPieces(ps) == TrimmedPieces(ps[1..])
  {
  }

  lemma {:induction false} SplitEachDropSeps(s: string, n: nat)
    requires n <= |s| && forall i :: 0 <= i < n ==> IsListSep(s[i])
    ensures TrimmedPieces(SplitEach(s)) == TrimmedPieces(SplitEach(s[n..])) || n == 0
    ensures n > 0 ==> TrimmedPieces(SplitEach(s)) == TrimmedPieces(SplitEach(s[n..]))
    decreases n
  {
    if n > 0 {
      assert SplitEach(s) == [""] + SplitEach(s[1..]);
      TrimmedPiecesEmptyHead(SplitEach(s));
      assert SplitEach(s)[1..] == SplitEach(s[1..]);
      if n > 1 {
        SplitEachDropSeps(s[1..], n - 1);
        assert s[1..][n - 1..] == s[n..];
      } else {
        assert s[1..] == s[n..];
      }
    }
  }

  /** Splitting on runs and on single separators agree once empty pieces are dropped. */
  lemma {:induction false} SplitRunsMatchesEach(s: string)
    ensures SplitRuns(s)[0] == SplitEach(s)[0]
    ensures TrimmedPieces(SplitRuns(s)) == TrimmedPieces(SplitEach(s))
    ensures TrimmedPieces(SplitRuns(s)[1..]) == TrimmedPieces(SplitEach(s)[1..])
    decreases |s|
  {
    if |s| > 0 {
      if IsListSep(s[0]) {
        var k := SepRun(s);
        SplitRunsMatchesEach(s[k..]);
        SplitEachDropSeps(s, k);
        assert SplitRuns(s) == [""] + SplitRuns(s[k..]);
        assert SplitEach(s) == [""] + SplitEach(s[1..]);
        TrimmedPiecesEmptyHead(SplitRuns(s));
        TrimmedPiecesEmptyHead(SplitEach(s));
        assert SplitRuns(s)[1..] == SplitRuns(s[k..]);
        assert SplitEach(s)[1..] == SplitEach(s[1..]);
        SplitEachDropSeps(s[1..], k - 1);
        assert s[1..][k - 1..] == s[k..];
      } else {
        SplitRunsMatchesEach(s[1..]);
        var t := SplitRuns(s[1..]);
        var u := SplitEach(s[1..]);
        assert SplitRuns(s) == [[s[0]] + t[0]] + t[1..];
        assert SplitEach(s) == [[s[0]] + u[0]] + u[1..];
        assert SplitRuns(s)[1..] == t[1..];
        assert SplitEach(s)[1..] == u[1..];
        assert SplitRuns(s) == [SplitRuns(s)[0]] + SplitRuns(s)[1..];
        assert SplitEach(s) == [SplitEach(s)[0]] + SplitEach(s)[1..];
        TrimmedPiecesAppend([SplitRuns(s)[0]], SplitRuns(s)[1..]);
        TrimmedPiecesAppend([SplitEach(s)[0]], SplitEach(s)[1..]);
      }
    }
  }

  /** Splitting at a separator splits the pieces: `SplitEach(a + [c] + b) == SplitEach(a) + SplitEach(b)`. */
  lemma {:induction false} SplitEachConcat(a: string, c: char, b: string)
    requires IsListSep(c)
    ensures SplitEach(a + [c] + b) == SplitEach(a) + SplitEach(b)
    decreases |a|
  {
    if |a| == 0 {
      assert a + [c] + b == [c] + b;
      SplitEachCons(c, b);
    } else {
      var rest := a[1..] + [c] + b;
      assert a + [c] + b == [a[0]] + rest;
      assert a == [a[0]] + a[1..];
      SplitEachConcat(a[1..], c, b);
      SplitEachCons(a[0], rest);
      SplitEachCons(a[0], a[1..]);
      ConsPieceAppend(a[0], SplitEach(a[1..]), SplitEach(b));
    }
  }

  /** The pieces of `[x] + s`, given the pieces `t` of `s`. */
  function ConsPiece(x: char, t: seq<string>): seq<string>
    requires |t| >= 1
  {
    if IsListSep(x) then [""] + t else [[x] + t[0]] + t[1..]
  }

  lemma SplitEachCons(x: char, s: string)
    ensures SplitEach([x] + s) == ConsPiece(x, SplitEach(s))
  {
    assert ([x] + s)[0] == x && ([x] + s)[1..] == s;
  }

  /** Adding a character in front only touches the first piece. */
  lemma ConsPieceAppend(x: char, t: seq<string>, u: seq<string>)
    requires |t| >= 1
    ensures ConsPiece(x, t + u) == ConsPiece(x, t) + u
  {
    if !IsListSep(x) {
      assert (t + u)[0] == t[0];
      assert (t + u)[1..] == t[1..] + u;
    }
  }

  /**
   * `splitMulti`: a missing or empty cell gives no pieces; otherwise the cell
   * is split on runs of `,` and `;`, each piece trimmed and empty ones dropped.
   */
  function SplitMulti(v: Option<string>): (r: seq<string>)
    ensures v.None? || v.value == "" ==> r == []
    ensures forall i :: 0 <= i < |r| ==> |r[i]| > 0 && Trimmed(r[i])
    ensures forall i, j :: 0 <= i < |r| && 0 <= j < |r[i]| ==> !IsListSep(r[i][j])
  {
    if v.None? || v.value == "" then []
    else
      SplitRunsMatchesEach(v.value);
      PiecesAreSepFree(SplitEach(v.value));
      TrimmedPieces(SplitRuns(v.value))
  }

  lemma {:induction false} PiecesAreSepFree(ps: seq<string>)
    requires forall i, j :: 0 <= i < |ps| && 0 <= j < |ps[i]| ==> !IsListSep(ps[i][j])
    ensures forall i, j :: 0 <= i < |TrimmedPieces(ps)| && 0 <= j < |TrimmedPieces(ps)[i]| ==> !IsListSep(TrimmedPieces(ps)[i][j])
    decreases |ps|
  {
    if |ps| > 0 {
      PiecesAreSepFree(ps[1..]);
      var t := Trim(ps[0]);
      assert forall j :: 0 <= j < |t| ==> t[j] == ps[0][LeadingSpaces(ps[0]) + j];
    }
  }

  /**
   * Pieces keep input order: the pieces of two cells joined by a separator are
   * the pieces of the first followed by those of the second.
   */
  lemma SplitMultiConcat(a: string, c: char, b: string)
    requires IsListSep(c)
    ensures SplitMulti(Some(a + [c] + b)) == SplitMulti(Some(a)) + SplitMulti(Some(b))
  {
    SplitMultiEach(a + [c] + b);
    SplitMultiEach(a);
    SplitMultiEach(b);
    SplitEachConcat(a, c, b);
    TrimmedPiecesAppend(SplitEach(a), SplitEach(b));
  }

  /** `SplitMulti` is the single-separator split with empty pieces dropped. */
  lemma SplitMultiEach(v: string)
    ensures SplitMulti(Some(v)) == TrimmedPieces(SplitEach(v))
  {
    if v == "" {
      assert SplitEach(v) == [""];
      TrimmedPiecesEmptyHead(SplitEach(v));
    } else {
      SplitRunsMatchesEach(v);
    }
  }

  /* ---------------- normalizeFormat ---------------- */

  /** `(^|\W)` before index `i`. */
  predicate BoundaryBefore(t: string, i: nat)
    requires i <= |t|
  {
    i == 0 || !IsWordChar(t[i - 1])
  }

  /** `(\W|$)` at index `e`. */
  predicate BoundaryAt(t: string, e: nat)
    requires e <= |t|
  {
    e == |t| || !IsWordChar(t[e])
  }

  /** `(^|\W)w(\W|$)` matches at `i`. */
  predicate WordAt(t: string, w: string, i: nat)
  {
    OccursAt(t, w, i) && BoundaryBefore(t, i) && BoundaryAt(t, i + |w|)
  }

  /** `(^|\W)w"?(\W|$)` matches at `i`. */
  predicate InchAt(t: string, w: string, i: nat)
  {
    && OccursAt(t, w, i) && BoundaryBefore(t, i)
    && ((i + |w| < |t| && t[i + |w|] == '"' && BoundaryAt(t, i + |w| + 1)) || BoundaryAt(t, i + |w|))
  }

  predicate HasWord(t: string, w: string)
  {
    exists i: nat :: i <= |t| && WordAt(t, w, i)
  }

  predicate HasInch(t: string, w: string)
  {
    exists i: nat :: i <= |t| && InchAt(t, w, i)
  }

  /** The optional `"` in the inch patterns never changes whether they match. */
  lemma InchIsWord(t: string, w: string)
    ensures HasInch(t, w) <==> HasWord(t, w)
  {
    if HasInch(t, w) {
      var i: nat :| i <= |t| && InchAt(t, w, i);
      assert WordAt(t, w, i);
    }
    if HasWord(t, w) {
      var i: nat :| i <= |t| && WordAt(t, w, i);
      assert InchAt(t, w, i);
    }
  }

  const CanonicalFormats: set<string> := {"LP", "12\"", "7\"", "10\"", "CD", "Cassette", "Digital"}

  /** The lower-cased, trimmed text the format rules test. */
  function FormatText(s: string): string
  {
    Lower(Trim(s))
  }

  /**
   * `normalizeFormat`: missing or empty input gives `None`; otherwise the
   * first matching rule wins, in the order LP, 12", 7", 10", CD, Cassette,
   * Digital, and unmatched input is returned as written.
   */
  function NormalizeFormat(s: Option<string>): (r: Option<string>)
    ensures r.None? <==> s.None? || s.value == ""
    ensures r.Some? ==> r.value in CanonicalFormats || r.value == s.value
    ensures r.Some? ==> r.value != ""
    ensures r == Some("LP") <== s.Some? && s.value != "" && HasWord(FormatText(s.value), "lp")
    ensures r.Some? && r.value !in CanonicalFormats ==>
              var t := FormatText(s.value);
              !HasWord(t, "lp") && !HasWord(t, "12") && !HasWord(t, "7") && !HasWord(t, "10")
              && !Contains(t, "cd") && !Contains(t, "cassette") && !Contains(t, "tape")
              && !Contains(t, "file") && !Contains(t, "digital")
    ensures s.Some? && s.value != "" ==>
              var t := FormatText(s.value);
              (!HasWord(t, "lp") && !HasWord(t, "12") && !HasWord(t, "7") && !HasWord(t, "10")
               && !Contains(t, "cd") && !Contains(t, "cassette") && !Contains(t, "tape")
               && !Contains(t, "file") && !Contains(t, "digital")) ==> r == s
  {
    if s.None? || s.value == "" then None
    else
      var t := FormatText(s.value);
      InchIsWord(t, "12");
      InchIsWord(t, "7");
      InchIsWord(t, "10");
      if HasWord(t, "lp") then Some("LP")
      else if HasInch(t, "12") then Some("12\"")
      else if HasInch(t, "7") then Some("7\"")
      else if HasInch(t, "10") then Some("10\"")
      else if Contains(t, "cd") then Some("CD")
      else if Contains(t, "cassette") || Contains(t, "tape") then Some("Cassette")
      else if Contains(t, "file") || Contains(t, "digital") then Some("Digital")
      else s
  }

  /** A string missing some character of `w` does not contain `w`. */
  lemma MissingCharNoMatch(t: string, w: string, k: nat)
    requires k < |w| && Lacks(t, w[k])
    ensures !Contains(t, w) && !HasWord(t, w)
  {
    forall i: nat
      ensures !OccursAt(t, w, i)
    {
      if i + |w| <= |t| {
        assert t[i..i + |w|][k] == t[i + k];
      }
    }
  }

  /** A format starting with the word "LP", such as "LP, Gatefold", is an LP. */
  lemma NormalizeFormatLeadingLp(s: string)
    requires |s| >= 3 && (s[0] == 'L' || s[0] == 'l') && (s[1] == 'P' || s[1] == 'p') && !IsWordChar(s[2])
    requires !IsSpace(s[|s| - 1])
    ensures NormalizeFormat(Some(s)) == Some("LP")
  {
    assert Trimmed(s);
    var t := FormatText(s);
    assert t[0] == 'l' && t[1] == 'p' && !IsWordChar(t[2]);
    assert t[0..2] == "lp";
    assert WordAt(t, "lp", 0);
  }

  lemma NormalizeFormatLpExample()
    ensures NormalizeFormat(Some("LP, Gatefold")) == Some("LP")
  {
    NormalizeFormatLeadingLp("LP, Gatefold");
  }

  /**
   * The rules in their order of precedence, each stated with the whole-word
   * tests (the optional inch mark never matters): a later rule applies only
   * when every earlier one fails.
   */
  lemma NormalizeFormatRules(s: string)
    requires s != ""
    ensures var t := FormatText(s);
            var r := NormalizeFormat(Some(s));
            && (!HasWord(t, "lp") && HasWord(t, "12") ==> r == Some("12\""))
            && (!HasWord(t, "lp") && !HasWord(t, "12") && HasWord(t, "7") ==> r == Some("7\""))
            && (!HasWord(t, "lp") && !HasWord(t, "12") && !HasWord(t, "7") && HasWord(t, "10") ==> r == Some("10\""))
            && (!HasWord(t, "lp") && !HasWord(t, "12") && !HasWord(t, "7") && !HasWord(t, "10") && Contains(t, "cd")
                ==> r == Some("CD"))
            && (!HasWord(t, "lp") && !HasWord(t, "12") && !HasWord(t, "7") && !HasWord(t, "10") && !Contains(t, "cd")
                && (Contains(t, "cassette") || Contains(t, "tape"))
                ==> r == Some("Cassette"))
            && (!HasWord(t, "lp") && !HasWord(t, "12") && !HasWord(t, "7") && !HasWord(t, "10") && !Contains(t, "cd")
                && !Contains(t, "cassette") && !Contains(t, "tape") && (Contains(t, "file") || Contains(t, "digital"))
                ==> r == Some("Digital"))
  {
    var t := FormatText(s);
    InchIsWord(t, "12");
    InchIsWord(t, "7");
    InchIsWord(t, "10");
  }

  /**
   * A format that lacks a letter of every rule's keyword, such as "Box Set",
   * is kept as written.
   */
  lemma NormalizeFormatFallback(s: string)
    requires s != ""
    requires forall i :: 0 <= i < |s| ==> s[i] !in "LlCcAaFfDd17"
    ensures NormalizeFormat(Some(s)) == Some(s)
  {
    var t := FormatText(s);
    FormatTextLacks(s);
    NoFormatKeyword(t);
    InchIsWord(t, "12");
    InchIsWord(t, "7");
    InchIsWord(t, "10");
  }

  /** Lower-casing and trimming bring in none of the keyword letters. */
  lemma FormatTextLacks(s: string)
    requires forall i :: 0 <= i < |s| ==> s[i] !in "LlCcAaFfDd17"
    ensures forall i :: 0 <= i < |FormatText(s)| ==> FormatText(s)[i] !in "lcafd17"
  {
    var x := Trim(s);
    forall i | 0 <= i < |x| ensures x[i] !in "LlCcAaFfDd17" {
      TrimSlice(s, i, i + 1);
      assert x[i] == s[LeadingSpaces(s) + i];
    }
    LowerLacks(x);
  }

  lemma LowerLacks(x: string)
    requires forall i :: 0 <= i < |x| ==> x[i] !in "LlCcAaFfDd17"
    ensures forall i :: 0 <= i < |Lower(x)| ==> Lower(x)[i] !in "lcafd17"
  {
    forall i | 0 <= i < |x| ensures LowerChar(x[i]) !in "lcafd17" {
      var c := x[i];
      assert c !in "LlCcAaFfDd17";
    }
  }

  /** A text without the letters l, c, a, f, d, 1 and 7 matches no format rule. */
  lemma NoFormatKeyword(t: string)
    requires forall i :: 0 <= i < |t| ==> t[i] !in "lcafd17"
    ensures !HasWord(t, "lp") && !HasWord(t, "12") && !HasWord(t, "7") && !HasWord(t, "10")
    ensures !Contains(t, "cd") && !Contains(t, "cassette") && !Contains(t, "tape")
    ensures !Contains(t, "file") && !Contains(t, "digital")
  {
    assert Lacks(t, 'l') && Lacks(t, 'c') && Lacks(t, 'a') && Lacks(t, 'f') && Lacks(t, 'd');
    assert Lacks(t, '1') && Lacks(t, '7');
    MissingCharNoMatch(t, "lp", 0);
    MissingCharNoMatch(t, "12", 0);
    MissingCharNoMatch(t, "7", 0);
    MissingCharNoMatch(t, "10", 0);
    MissingCharNoMatch(t, "cd", 0);
    MissingCharNoMatch(t, "cassette", 0);
    MissingCharNoMatch(t, "tape", 1);
    MissingCharNoMatch(t, "file", 0);
    MissingCharNoMatch(t, "digital", 0);
  }

  lemma NormalizeFormatBoxSetExample()
    ensures NormalizeFormat(Some("Box Set")) == Some("Box Set")
  {
    NormalizeFormatFallback("Box Set");
  }

  /* ---------------- normalised records ---------------- */

  /** One release in the uniform shape the aggregator consumes. */
  datatype Record = Record(
    year: Option<int>,
    decade: Option<string>,
    labels: seq<string>,
    formats: seq<string>,
    country: Option<string>,
    artists: seq<string>,
    title: Option<string>)

  /** `decade` is present exactly when `year` is, and is derived from it. */
  predicate DecadeConsistent(r: Record)
  {
    (r.decade.Some? <==> r.year.Some?)
    && (r.year.Some? ==> r.decade.value == DecadeLabel(r.year.value))
  }

  /** `year ? `${...}s` : undefined`: a year from `ToYear` is never 0, so it is truthy. */
  function DecadeOf(year: Option<int>): Option<string>
  {
    if year.Some? && year.value != 0 then Some(DecadeLabel(year.value)) else None
  }

  /** `.map(clean).filter(Boolean)`: each name cleaned, the empty results dropped. */
  function CleanNames(names: seq<string>): (r: seq<string>)
    ensures r == Seqs.Filter(NonEmpty, CleanEach(names))
    ensures |r| <= |names|
    ensures forall i :: 0 <= i < |r| ==> |r[i]| > 0 && CleanName(r[i])
  {
    if |names| == 0 then []
    else
      var c := Clean(names[0]);
      CleanEachCons(names);
      Seqs.FilterAppend(NonEmpty, [c], CleanEach(names[1..]));
      (if |c| > 0 then [c] else []) + CleanNames(names[1..])
  }

  /** `names.map(clean)`. */
  function CleanEach(names: seq<string>): (r: seq<string>)
    ensures |r| == |names|
    ensures forall i :: 0 <= i < |names| ==> r[i] == Clean(names[i])
  {
    seq(|names|, i requires 0 <= i < |names| => Clean(names[i]))
  }

  lemma CleanEachCons(names: seq<string>)
    requires |names| > 0
    ensures CleanEach(names) == [Clean(names[0])] + CleanEach(names[1..])
  {
    assert CleanEach(names)[1..] == CleanEach(names[1..]);
  }


  /** The entries that are present and non-empty, in order: the inputs `normalizeFormat` classifies. */
  function PresentValues(ss: seq<Option<string>>): (r: seq<string>)
    ensures forall x :: x in r <==> Some(x) in ss && x != ""
  {
    if |ss| == 0 then []
    else (if ss[0].Some? && ss[0].value != "" then [ss[0].value] else []) + PresentValues(ss[1..])
  }

  /** `.map(normalizeFormat).filter(Boolean)`: one classification per present source, in order. */
  function ClassifyAll(ss: seq<Option<string>>): (r: seq<string>)
    ensures |r| == |PresentValues(ss)| <= |ss|
    ensures forall i :: 0 <= i < |r| ==> Some(r[i]) == NormalizeFormat(Some(PresentValues(ss)[i]))
    ensures forall i :: 0 <= i < |r| ==> r[i] != ""
  {
    if |ss| == 0 then []
    else
      var f := NormalizeFormat(ss[0]);
      var rest := ClassifyAll(ss[1..]);
      PresentValuesCons(ss);
      var h := if f.Some? then [f.value] else [];
      ClassifiedConcat(h, if ss[0].Some? && ss[0].value != "" then [ss[0].value] else [],
                       rest, PresentValues(ss[1..]));
      h + rest
  }

  /** `r[i]` is the non-empty classification of `p[i]`, for every `i`. */
  predicate Classified(r: seq<string>, p: seq<string>)
  {
    |r| == |p| && forall i :: 0 <= i < |r| ==> Some(r[i]) == NormalizeFormat(Some(p[i])) && r[i] != ""
  }

  lemma ClassifiedConcat(a: seq<string>, pa: seq<string>, b: seq<string>, pb: seq<string>)
    requires Classified(a, pa) && Classified(b, pb)
    ensures Classified(a + b, pa + pb)
  {
    forall i | 0 <= i < |a + b|
      ensures Some((a + b)[i]) == NormalizeFormat(Some((pa + pb)[i])) && (a + b)[i] != ""
    {
      if i < |a| {
        assert (a + b)[i] == a[i] && (pa + pb)[i] == pa[i];
      } else {
        assert (a + b)[i] == b[i - |a|] && (pa + pb)[i] == pb[i - |a|];
      }
    }
  }

  /** The first source contributes one value exactly when it classifies. */
  lemma PresentValuesCons(ss: seq<Option<string>>)
    requires |ss| > 0
    ensures var h := if ss[0].Some? && ss[0].value != "" then [ss[0].value] else [];
            && PresentValues(ss) == h + PresentValues(ss[1..])
            && (NormalizeFormat(ss[0]).Some? <==> |h| == 1)
            && (|h| == 1 ==> NormalizeFormat(ss[0]) == NormalizeFormat(Some(h[0])))
  {
  }

  /** Number of entries that are present and not empty. */
  function CountPresent(ss: seq<Option<string>>): nat
  {
    if |ss| == 0 then 0 else (if ss[0].Some? && ss[0].value != "" then 1 else 0) + CountPresent(ss[1..])
  }

  /** Classification keeps one format per present, non-empty source string. */
  lemma {:induction false} ClassifyAllCount(ss: seq<Option<string>>)
    ensures |ClassifyAll(ss)| == CountPresent(ss)
    decreases |ss|
  {
    if |ss| > 0 {
      ClassifyAllCount(ss[1..]);
    }
  }

  /* ---------------- from the API shape ---------------- */

  /** A `formats[]` entry: `name` may be missing, `descriptions` defaults to []. */
  datatype FormatInfo = FormatInfo(name: Option<string>, descriptions: seq<string>)

  /** `basic_information`, with missing arrays given as []. */
  datatype BasicInfo = BasicInfo(
    title: Option<string>,
    year: Option<int>,
    labels: seq<string>,
    formats: seq<FormatInfo>,
    artists: seq<string>)

  /** `[f.name, ...(f.descriptions || [])]` over every format entry. */
  function FormatSources(fs: seq<FormatInfo>): (r: seq<Option<string>>)
  {
    if |fs| == 0 then []
    else [fs[0].name] + Wrap(fs[0].descriptions) + FormatSources(fs[1..])
  }

  function Wrap(ds: seq<string>): (r: seq<Option<string>>)
    ensures |r| == |ds| && forall i :: 0 <= i < |ds| ==> r[i] == Some(ds[i])
  {
    seq(|ds|, i requires 0 <= i < |ds| => Some(ds[i]))
  }

  /** Number of non-empty strings. */
  function CountNonEmpty(ds: seq<string>): nat
  {
    if |ds| == 0 then 0 else (if ds[0] != "" then 1 else 0) + CountNonEmpty(ds[1..])
  }

  /** Number of format names present and non-empty, plus non-empty descriptions. */
  function FormatSourceCount(fs: seq<FormatInfo>): nat
  {
    if |fs| == 0 then 0
    else (if fs[0].name.Some? && fs[0].name.value != "" then 1 else 0)
         + CountNonEmpty(fs[0].descriptions) + FormatSourceCount(fs[1..])
  }

  lemma {:induction false} CountPresentAppend(a: seq<Option<string>>, b: seq<Option<string>>)
    ensures CountPresent(a + b) == CountPresent(a) + CountPresent(b)
    decreases |a|
  {
    if |a| == 0 {
      assert a + b == b;
    } else {
      assert (a + b)[1..] == a[1..] + b;
      CountPresentAppend(a[1..], b);
    }
  }

  lemma {:induction false} CountPresentWrap(ds: seq<string>)
    ensures CountPresent(Wrap(ds)) == CountNonEmpty(ds)
    decreases |ds|
  {
    if |ds| > 0 {
      assert Wrap(ds)[1..] == Wrap(ds[1..]);
      CountPresentWrap(ds[1..]);
    }
  }

  lemma {:induction false} FormatSourcesCount(fs: seq<FormatInfo>)
    ensures CountPresent(FormatSources(fs)) == FormatSourceCount(fs)
    decreases |fs|
  {
    if |fs| > 0 {
      var head := [fs[0].name] + Wrap(fs[0].descriptions);
      assert FormatSources(fs) == head + FormatSources(fs[1..]);
      FormatSourcesCount(fs[1..]);
      CountPresentAppend(head, FormatSources(fs[1..]));
      CountPresentAppend([fs[0].name], Wrap(fs[0].descriptions));
      CountPresentWrap(fs[0].descriptions);
      assert CountPresent([fs[0].name]) == if fs[0].name.Some? && fs[0].name.value != "" then 1 else 0;
    }
  }

  /**
   * `normalizeFromApi`, given `r.basic_information` (`None` when the release or
   * the field is missing). The country is never known from this shape.
   */
  function NormalizeFromApi(bi: Option<BasicInfo>): (r: Record)
    ensures DecadeConsistent(r)
    ensures r.country.None?
    ensures bi.None? ==> r == Record(None, None, [], [], None, [], None)
    ensures bi.Some? ==> r.year == ToYear(if bi.value.year.Some? then Some(IntToString(bi.value.year.value)) else None)
    ensures bi.Some? ==> |r.formats| == FormatSourceCount(bi.value.formats)
    ensures bi.Some? ==> r.title == bi.value.title
    ensures bi.Some? ==> r.labels == CleanNames(bi.value.labels) && r.artists == CleanNames(bi.value.artists)
    ensures bi.Some? ==> r.formats == ClassifyAll(FormatSources(bi.value.formats))
    ensures forall i :: 0 <= i < |r.labels| ==> |r.labels[i]| > 0 && CleanName(r.labels[i])
    ensures forall i :: 0 <= i < |r.artists| ==> |r.artists[i]| > 0 && CleanName(r.artists[i])
  {
    var b := bi.GetOr(BasicInfo(None, None, [], [], []));
    var year := ToYear(if b.year.Some? then Some(IntToString(b.year.value)) else None);
    ClassifyAllCount(FormatSources(b.formats));
    FormatSourcesCount(b.formats);
    Record(
      year,
      DecadeOf(year),
      CleanNames(b.labels),
      ClassifyAll(FormatSources(b.formats)),
      None,
      CleanNames(b.artists),
      b.title)
  }

  /** A release year within range is read back unchanged from the API's number. */
  lemma ApiYearInRange(y: int)
    requires 1900 <= y <= 2100
    ensures ToYear(Some(IntToString(y))) == Some(y)
  {
    var s := IntToString(y);
    assert |s| == 4;
    assert FirstRunAt(s, 0);
    assert s[0..4] == s;
    ToYearFirstRun(s, 0);
  }

  /* ---------------- from a CSV row ---------------- */

  const ArtistHeaders: seq<string> := ["Artist", "Artists", "artist"]
  const TitleHeaders: seq<string> := ["Title", "Release Title", "title"]
  const LabelHeaders: seq<string> := ["Label", "Labels", "label"]
  const FormatHeaders: seq<string> := ["Format", "Formats", "format"]
  const ReleasedHeaders: seq<string> := ["Released", "Year", "Released Year", "released"]
  const CountryHeaders: seq<string> := ["Country", "country"]

  /** Every split piece of a format cell is non-empty, so each one is classified. */
  lemma ClassifyPieces(ps: seq<string>)
    requires forall i :: 0 <= i < |ps| ==> |ps[i]| > 0
    ensures var f := ClassifyAll(Wrap(ps));
            |f| == |ps| && forall i :: 0 <= i < |f| ==> Some(f[i]) == NormalizeFormat(Some(ps[i]))
  {
    PresentValuesWrap(ps);
  }

  /**
   * `normalizeFromCsv`: a row with none of artist, title and label is not data
   * (`None`); otherwise every field is read under its accepted headers.
   */
  function NormalizeFromCsv(row: map<string, string>): (r: Option<Record>)
    ensures r.None? <==> Pick(row, ArtistHeaders).None? && Pick(row, TitleHeaders).None? && Pick(row, LabelHeaders).None?
    ensures r.Some? ==> DecadeConsistent(r.value)
    ensures r.Some? ==> r.value.year == ToYear(Pick(row, ReleasedHeaders))
    ensures r.Some? ==> |r.value.formats| == |SplitMulti(Pick(row, FormatHeaders))|
    ensures r.Some? ==> forall i :: 0 <= i < |r.value.labels| ==> |r.value.labels[i]| > 0 && CleanName(r.value.labels[i])
    ensures r.Some? ==> forall i :: 0 <= i < |r.value.artists| ==> |r.value.artists[i]| > 0 && CleanName(r.value.artists[i])
    ensures r.Some? ==> (r.value.title.Some? <==> Pick(row, TitleHeaders).Some?)
    ensures r.Some? ==> (r.value.country.Some? <==> Pick(row, CountryHeaders).Some?)
    ensures r.Some? && Pick(row, TitleHeaders).Some? ==> r.value.title == Some(Trim(Pick(row, TitleHeaders).value))
    ensures r.Some? && Pick(row, CountryHeaders).Some? ==> r.value.country == Some(Trim(Pick(row, CountryHeaders).value))
    ensures r.Some? ==> r.value.labels == CleanNames(SplitMulti(Pick(row, LabelHeaders)))
    ensures r.Some? ==> r.value.artists == CleanNames(SplitMulti(Pick(row, ArtistHeaders)))
    ensures r.Some? ==> r.value.formats == ClassifyAll(Wrap(SplitMulti(Pick(row, FormatHeaders))))
    ensures r.Some? ==> forall i :: 0 <= i < |r.value.formats| ==>
              Some(r.value.formats[i]) == NormalizeFormat(Some(SplitMulti(Pick(row, FormatHeaders))[i]))
  {
    var artist := Pick(row, ArtistHeaders);
    var title := Pick(row, TitleHeaders);
    var labelCell := Pick(row, LabelHeaders);
    if artist.None? && title.None? && labelCell.None? then None
    else Some(CsvRecord(artist, title, labelCell, Pick(row, FormatHeaders),
                        Pick(row, ReleasedHeaders), Pick(row, CountryHeaders)))
  }

  /** The record built from the picked cells of a row that names something. */
  function CsvRecord(artist: Option<string>, title: Option<string>, labelCell: Option<string>,
                     format: Option<string>, released: Option<string>, country: Option<string>): (r: Record)
    ensures DecadeConsistent(r) && r.year == ToYear(released)
    ensures |r.formats| == |SplitMulti(format)|
    ensures forall i :: 0 <= i < |r.labels| ==> |r.labels[i]| > 0 && CleanName(r.labels[i])
    ensures forall i :: 0 <= i < |r.artists| ==> |r.artists[i]| > 0 && CleanName(r.artists[i])
    ensures r.title.Some? <==> title.Some?
    ensures r.country.Some? <==> country.Some?
    ensures title.Some? ==> r.title == Some(Trim(title.value))
    ensures country.Some? ==> r.country == Some(Trim(country.value))
    ensures r.labels == CleanNames(SplitMulti(labelCell)) && r.artists == CleanNames(SplitMulti(artist))
    ensures r.formats == ClassifyAll(Wrap(SplitMulti(format)))
    ensures forall i :: 0 <= i < |r.formats| ==> Some(r.formats[i]) == NormalizeFormat(Some(SplitMulti(format)[i]))
  {
    var year := ToYear(released);
    var pieces := SplitMulti(format);
    ClassifyPieces(pieces);
    Record(
      year,
      DecadeOf(year),
      CleanNames(SplitMulti(labelCell)),
      ClassifyAll(Wrap(pieces)),
      if country.Some? then Some(Trim(country.value)) else None,
      CleanNames(SplitMulti(artist)),
      if title.Some? then Some(Trim(title.value)) else None)
  }


  lemma {:induction false} PresentPieces(ps: seq<string>)
    requires forall i :: 0 <= i < |ps| ==> |ps[i]| > 0
    ensures CountPresent(Wrap(ps)) == |ps|
    decreases |ps|
  {
    if |ps| > 0 {
      assert Wrap(ps)[1..] == Wrap(ps[1..]);
      PresentPieces(ps[1..]);
    }
  }

  /** Every piece of a split cell is non-empty, so each one is a present source. */
  lemma {:induction false} PresentValuesWrap(ps: seq<string>)
    requires forall i :: 0 <= i < |ps| ==> |ps[i]| > 0
    ensures PresentValues(Wrap(ps)) == ps
    decreases |ps|
  {
    if |ps| > 0 {
      assert Wrap(ps)[1..] == Wrap(ps[1..]);
      PresentValuesWrap(ps[1..]);
    }
  }
}
