/**
 * Character-level string helpers shared by the whole model. JavaScript's
 * `\s`, `trim()`, `split`, `join`, `parseInt` and `padStart` are modelled over
 * ASCII: Unicode whitespace and case folding are outside the model.
 */
module Text {
  import opened Wrappers

  /* ---------------- character classes ---------------- */

  /** ASCII whitespace, as matched by `\s` and removed by `trim()`. */
  predicate IsSpace(c: char)
  {
    c == ' ' || c == '\t' || c == '\n' || c == '\r' || c == '\U{000B}' || c == '\U{000C}'
  }

  /** Line terminators, which the regular-expression `.` does not match. */
  predicate IsLineTerminator(c: char)
  {
    c == '\n' || c == '\r'
  }

  predicate IsDigit(c: char)
  {
    '0' <= c <= '9'
  }

  predicate IsUpper(c: char)
  {
    'A' <= c <= 'Z'
  }

  /** Word characters `[A-Za-z0-9_]`; everything else is `\W`. */
  predicate IsWordChar(c: char)
  {
    'a' <= c <= 'z' || IsUpper(c) || IsDigit(c) || c == '_'
  }

  function LowerChar(c: char): (r: char)
    ensures !IsUpper(r)
    ensures IsSpace(r) <==> IsSpace(c)
    ensures IsWordChar(r) <==> IsWordChar(c)
    ensures !IsUpper(c) ==> r == c
  {
    if IsUpper(c) then (c as int + 32) as char else c
  }

  /** `toLowerCase()` over ASCII. */
  function Lower(s: string): (r: string)
    ensures |r| == |s|
    ensures forall i :: 0 <= i < |s| ==> r[i] == LowerChar(s[i])
  {
    if |s| == 0 then "" else [LowerChar(s[0])] + Lower(s[1..])
  }

  lemma LowerAppend(a: string, b: string)
    ensures Lower(a + b) == Lower(a) + Lower(b)
  {
  }

  predicate IsLowerCase(s: string)
  {
    forall i :: 0 <= i < |s| ==> !IsUpper(s[i])
  }

  predicate AllDigits(s: string)
  {
    forall i :: 0 <= i < |s| ==> IsDigit(s[i])
  }

  /* ---------------- whitespace ---------------- */

  /** Number of whitespace characters at the start of `s`. */
  function LeadingSpaces(s: string): (n: nat)
    ensures n <= |s|
    ensures forall i :: 0 <= i < n ==> IsSpace(s[i])
    ensures n < |s| ==> !IsSpace(s[n])
  {
    if |s| > 0 && IsSpace(s[0]) then 1 + LeadingSpaces(s[1..]) else 0
  }

  /** Number of whitespace characters at the end of `s`. */
  function TrailingSpaces(s: string): (n: nat)
    ensures n <= |s|
    ensures forall i :: |s| - n <= i < |s| ==> IsSpace(s[i])
    ensures n < |s| ==> !IsSpace(s[|s| - n - 1])
  {
    if |s| > 0 && IsSpace(s[|s| - 1]) then 1 + TrailingSpaces(s[..|s| - 1]) else 0
  }

  /** Every character is whitespace. */
  predicate AllSpace(s: string)
  {
    forall i :: 0 <= i < |s| ==> IsSpace(s[i])
  }

  /** Whitespace followed by a non-space: the leading whitespace is exactly the prefix. */
  lemma {:induction false} LeadingSpacesAfterSpaces(sp: string, w: string)
    requires AllSpace(sp) && |w| > 0 && !IsSpace(w[0])
    ensures LeadingSpaces(sp + w) == |sp|
    decreases |sp|
  {
    if |sp| > 0 {
      assert (sp + w)[1..] == sp[1..] + w;
      LeadingSpacesAfterSpaces(sp[1..], w);
    } else {
      assert sp + w == w;
    }
  }

  /** JavaScript's `Boolean` on a string: true exactly for a non-empty one. */
  function NonEmpty(x: string): bool
  {
    x != ""
  }

  /** No whitespace at either end. */
  predicate Trimmed(s: string)
  {
    |s| == 0 || (!IsSpace(s[0]) && !IsSpace(s[|s| - 1]))
  }

  /** Every whitespace character is a plain space and no two are adjacent. */
  predicate SingleSpaced(s: string)
  {
    && (forall i :: 0 <= i < |s| && IsSpace(s[i]) ==> s[i] == ' ')
    && (forall i, j :: 0 <= i < |s| && 0 <= j < |s| && j == i + 1 && IsSpace(s[i]) ==> !IsSpace(s[j]))
  }

  /** `trimStart()`: drops the leading whitespace. */
  function TrimStart(s: string): (r: string)
    ensures r == s[LeadingSpaces(s)..]
    ensures |r| > 0 ==> !IsSpace(r[0])
  {
    s[LeadingSpaces(s)..]
  }

  /**
   * `trim()`: the result is the part of `s` between its leading and trailing
   * whitespace, and has none at either end.
   */
  function Trim(s: string): (r: string)
    ensures Trimmed(r)
    ensures LeadingSpaces(s) + |r| <= |s|
    ensures r == s[LeadingSpaces(s)..LeadingSpaces(s) + |r|]
    ensures forall i :: 0 <= i < LeadingSpaces(s) ==> IsSpace(s[i])
    ensures forall i :: LeadingSpaces(s) + |r| <= i < |s| ==> IsSpace(s[i])
    ensures Trimmed(s) ==> r == s
  {
    var t := s[LeadingSpaces(s)..];
    var n := TrailingSpaces(t);
    t[..|t| - n]
  }

  /** `replace(/\s+/g, " ")`: every run of whitespace becomes one space. */
  function Collapse(s: string): (r: string)
    ensures |r| <= |s|
    ensures |r| == 0 <==> |s| == 0
    ensures |s| > 0 && IsSpace(s[0]) ==> r[0] == ' '
    ensures |s| > 0 && !IsSpace(s[0]) ==> r[0] == s[0]
    ensures |s| > 0 && IsSpace(s[|s| - 1]) ==> r[|r| - 1] == ' '
    ensures |s| > 0 && !IsSpace(s[|s| - 1]) ==> r[|r| - 1] == s[|s| - 1]
    decreases |s|
  {
    if |s| == 0 then ""
    else if IsSpace(s[0]) then
      var k := LeadingSpaces(s);
      var rest := Collapse(s[k..]);
      assert |rest| > 0 ==> !IsSpace(rest[0]);
      [' '] + rest
    else
      [s[0]] + Collapse(s[1..])
  }

  /** Collapsing leaves no whitespace other than single, isolated spaces. */
  lemma {:induction false} CollapseSingleSpaced(s: string)
    ensures SingleSpaced(Collapse(s))
    decreases |s|
  {
    if |s| > 0 {
      if IsSpace(s[0]) {
        var k := LeadingSpaces(s);
        CollapseSingleSpaced(s[k..]);
        CollapseSpaceHead(s);
      } else {
        CollapseSingleSpaced(s[1..]);
        CollapseWordHead(s);
      }
    }
  }

  /** A single-spaced string is left unchanged by whitespace collapsing. */
  lemma {:induction false} CollapseFixed(s: string)
    requires SingleSpaced(s)
    ensures Collapse(s) == s
    decreases |s|
  {
    if |s| > 0 {
      assert SingleSpaced(s[1..]);
      CollapseFixed(s[1..]);
      assert s == [s[0]] + s[1..];
      if IsSpace(s[0]) {
        assert s[0] == ' ';
        assert LeadingSpaces(s) == 1 by {
          assert |s| > 1 ==> !IsSpace(s[1]);
          assert LeadingSpaces(s[1..]) == 0;
        }
        assert Collapse(s) == [' '] + Collapse(s[1..]);
      } else {
        assert Collapse(s) == [s[0]] + Collapse(s[1..]);
      }
    }
  }

  /**
   * Collapsing distributes over a concatenation whose seam is not a
   * whitespace run.
   */
  lemma {:induction false} CollapseAppend(a: string, b: string)
    requires |a| == 0 || !IsSpace(a[|a| - 1])
    ensures Collapse(a + b) == Collapse(a) + Collapse(b)
    decreases |a|
  {
    if |a| == 0 {
      assert a + b == b;
    } else if IsSpace(a[0]) {
      CollapseAppend(a[LeadingSpaces(a)..], b);
      CollapseAppendSpaceStep(a, b);
    } else {
      CollapseAppend(a[1..], b);
      CollapseAppendWordStep(a, b);
    }
  }

  lemma {:induction false} CollapseAppendSpaceStep(a: string, b: string)
    requires |a| > 0 && !IsSpace(a[|a| - 1]) && IsSpace(a[0])
    requires Collapse(a[LeadingSpaces(a)..] + b) == Collapse(a[LeadingSpaces(a)..]) + Collapse(b)
    ensures Collapse(a + b) == Collapse(a) + Collapse(b)
  {
    var k := LeadingSpaces(a);
    CollapseSpaceHeadAppend(a, b);
    CollapseSpaceHead(a);
    SeqAssoc([' '], Collapse(a[k..]), Collapse(b));
  }

  lemma {:induction false} CollapseAppendWordStep(a: string, b: string)
    requires |a| > 0 && !IsSpace(a[0])
    requires Collapse(a[1..] + b) == Collapse(a[1..]) + Collapse(b)
    ensures Collapse(a + b) == Collapse(a) + Collapse(b)
  {
    CollapseWordHeadAppend(a, b);
    CollapseWordHead(a);
    SeqAssoc([a[0]], Collapse(a[1..]), Collapse(b));
  }

  lemma SeqAssoc<T>(x: seq<T>, y: seq<T>, z: seq<T>)
    ensures x + (y + z) == (x + y) + z
  {
  }

  lemma CollapseWordHeadAppend(a: string, b: string)
    requires |a| > 0 && !IsSpace(a[0])
    ensures Collapse(a + b) == [a[0]] + Collapse(a[1..] + b)
  {
    CollapseWordHead(a + b);
    assert (a + b)[1..] == a[1..] + b;
  }

  lemma CollapseSpaceHeadAppend(a: string, b: string)
    requires |a| > 0 && !IsSpace(a[|a| - 1]) && IsSpace(a[0])
    ensures Collapse(a + b) == [' '] + Collapse(a[LeadingSpaces(a)..] + b)
  {
    var k := LeadingSpaces(a);
    LeadingSpacesAppend(a, b);
    assert (a + b)[k..] == a[k..] + b;
    CollapseSpaceHead(a + b);
  }

  lemma CollapseSpaceHead(s: string)
    requires |s| > 0 && IsSpace(s[0])
    ensures Collapse(s) == [' '] + Collapse(s[LeadingSpaces(s)..])
  {
  }

  lemma CollapseWordHead(s: string)
    requires |s| > 0 && !IsSpace(s[0])
    ensures Collapse(s) == [s[0]] + Collapse(s[1..])
  {
  }

  lemma {:induction false} LeadingSpacesAppend(a: string, b: string)
    requires LeadingSpaces(a) < |a|
    ensures LeadingSpaces(a + b) == LeadingSpaces(a)
    decreases |a|
  {
    if IsSpace(a[0]) {
      assert (a + b)[1..] == a[1..] + b;
      LeadingSpacesAppend(a[1..], b);
    }
  }

  /* ---------------- split and join ---------------- */

  /**
   * `s.split(sep)` for a non-empty literal separator: occurrences are found
   * left to right without overlap, and the pieces between them are kept,
   * empty ones included.
   */
  function SplitOn(s: string, sep: string): (r: seq<string>)
    requires |sep| > 0
    ensures |r| >= 1
    ensures |sep| == 1 ==> forall i :: 0 <= i < |r| ==> sep[0] !in r[i]
    decreases |s|
  {
    if |s| == 0 then [""]
    else if sep <= s then [""] + SplitOn(s[|sep|..], sep)
    else
      var t := SplitOn(s[1..], sep);
      [[s[0]] + t[0]] + t[1..]
  }

  /** `parts.join(sep)`. */
  function Join(parts: seq<string>, sep: string): string
  {
    if |parts| == 0 then ""
    else if |parts| == 1 then parts[0]
    else parts[0] + sep + Join(parts[1..], sep)
  }

  /** Joining the pieces of a split with the same separator restores the input. */
  lemma {:induction false} JoinSplitOn(s: string, sep: string)
    requires |sep| > 0
    ensures Join(SplitOn(s, sep), sep) == s
    decreases |s|
  {
    if |s| == 0 {
    } else if sep <= s {
      JoinSplitOn(s[|sep|..], sep);
      JoinSepStep(s, sep, SplitOn(s[|sep|..], sep));
    } else {
      JoinSplitOn(s[1..], sep);
      JoinCharStep(s, sep, SplitOn(s[1..], sep));
    }
  }

  lemma JoinSepStep(s: string, sep: string, t: seq<string>)
    requires |sep| > 0 && |s| > 0 && sep <= s
    requires |t| >= 1 && t == SplitOn(s[|sep|..], sep) && Join(t, sep) == s[|sep|..]
    ensures Join(SplitOn(s, sep), sep) == s
  {
    var rest := s[|sep|..];
    assert SplitOn(s, sep) == [""] + t;
    JoinCons("", t, sep);
    assert "" + sep + rest == s;
  }

  lemma JoinCharStep(s: string, sep: string, t: seq<string>)
    requires |sep| > 0 && |s| > 0 && !(sep <= s)
    requires |t| >= 1 && t == SplitOn(s[1..], sep) && Join(t, sep) == s[1..]
    ensures Join(SplitOn(s, sep), sep) == s
  {
    assert SplitOn(s, sep) == [[s[0]] + t[0]] + t[1..];
    JoinHeadExtend(s[0], t, sep);
    assert [s[0]] + s[1..] == s;
  }

  /** Joining a non-empty list after one more piece. */
  lemma JoinCons(x: string, t: seq<string>, sep: string)
    requires |t| >= 1
    ensures Join([x] + t, sep) == x + sep + Join(t, sep)
  {
    var u := [x] + t;
    assert |u| > 1 && u[0] == x && u[1..] == t;
  }

  /** Prefixing the first piece with a character prefixes the join with it. */
  lemma JoinHeadExtend(c: char, t: seq<string>, sep: string)
    requires |t| >= 1
    ensures Join([[c] + t[0]] + t[1..], sep) == [c] + Join(t, sep)
  {
    var h := [c] + t[0];
    var u := [h] + t[1..];
    if |t| == 1 {
      assert u == [h];
    } else {
      assert t == [t[0]] + t[1..];
      JoinCons(t[0], t[1..], sep);
      JoinCons(h, t[1..], sep);
      var j := Join(t[1..], sep);
      assert h + sep + j == [c] + (t[0] + sep + j);
    }
  }

  /** A separator-free prefix becomes the start of the first piece. */
  lemma {:induction false} SplitOnPrefix(a: string, b: string, c: char)
    requires c !in a
    ensures SplitOn(a + b, [c]) == [a + SplitOn(b, [c])[0]] + SplitOn(b, [c])[1..]
    decreases |a|
  {
    if |a| == 0 {
      assert a + b == b;
      assert a + SplitOn(b, [c])[0] == SplitOn(b, [c])[0];
    } else {
      assert (a + b)[1..] == a[1..] + b;
      assert (a + b)[0] == a[0] && a[0] in a;
      assert !([c] <= a + b);
      var u := SplitOn(b, [c]);
      var t := SplitOn(a[1..] + b, [c]);
      assert SplitOn(a + b, [c]) == [[a[0]] + t[0]] + t[1..];
      SplitOnPrefix(a[1..], b, c);
      assert t[0] == a[1..] + u[0] && t[1..] == u[1..];
      assert [a[0]] + (a[1..] + u[0]) == a + u[0];
    }
  }

  /**
   * Splitting a join of separator-free pieces on a one-character separator
   * gives the pieces back.
   */
  lemma {:induction false} SplitOnJoin(parts: seq<string>, c: char)
    requires |parts| >= 1
    requires forall i :: 0 <= i < |parts| ==> c !in parts[i]
    ensures SplitOn(Join(parts, [c]), [c]) == parts
    decreases |parts|
  {
    if |parts| == 1 {
      SplitOnPrefix(parts[0], "", c);
      assert parts[0] + "" == parts[0];
    } else {
      var rest := Join(parts[1..], [c]);
      assert Join(parts, [c]) == parts[0] + ([c] + rest);
      SplitOnPrefix(parts[0], [c] + rest, c);
      assert [c] <= [c] + rest && ([c] + rest)[1..] == rest;
      assert SplitOn([c] + rest, [c]) == [""] + SplitOn(rest, [c]);
      SplitOnJoin(parts[1..], c);
      assert parts[0] + "" == parts[0];
      assert parts == [parts[0]] + parts[1..];
    }
  }

  /** JavaScript's `a % b` for `b > 0`: the remainder takes the sign of `a`. */
  function JsRem(a: int, b: int): (r: int)
    requires b > 0
    ensures a >= 0 ==> 0 <= r < b && r == a - b * (a / b)
    ensures a < 0 ==> -b < r <= 0
  {
    if a >= 0 then a % b else -((-a) % b)
  }

  /* ---------------- digits and integers ---------------- */

  function DigitValue(c: char): (d: nat)
    requires IsDigit(c)
    ensures d < 10
  {
    c as int - '0' as int
  }

  function DigitChar(d: nat): (c: char)
    requires d < 10
    ensures IsDigit(c) && DigitValue(c) == d
  {
    ('0' as int + d) as char
  }

  /** The decimal value of a string of digits (leading zeros allowed). */
  function DigitsValue(s: string): nat
    requires AllDigits(s)
  {
    if |s| == 0 then 0 else DigitsValue(s[..|s| - 1]) * 10 + DigitValue(s[|s| - 1])
  }

  /** Leading zeros do not change the value of a digit string. */
  lemma {:induction false} DigitsValueLeadingZero(s: string)
    requires AllDigits(s)
    ensures AllDigits("0" + s) && DigitsValue("0" + s) == DigitsValue(s)
    decreases |s|
  {
    if |s| > 0 {
      assert ("0" + s)[..|"0" + s| - 1] == "0" + s[..|s| - 1];
      DigitsValueLeadingZero(s[..|s| - 1]);
    }
  }

  /** `String(n)` for a non-negative integer. */
  function NatToString(n: nat): (r: string)
    ensures |r| >= 1 && AllDigits(r)
    ensures DigitsValue(r) == n
    ensures |r| > 1 ==> r[0] != '0'
    ensures n < 10 <==> |r| == 1
    ensures 10 <= n < 100 <==> |r| == 2
    ensures 1000 <= n < 10000 <==> |r| == 4
  {
    if n < 10 then [DigitChar(n)]
    else
      var r := NatToString(n / 10) + [DigitChar(n % 10)];
      assert r[..|r| - 1] == NatToString(n / 10);
      r
  }

  /** `String(i)` for any integer. */
  function IntToString(i: int): (r: string)
    ensures |r| >= 1
    ensures i >= 0 ==> r == NatToString(i)
    ensures i < 0 ==> r == "-" + NatToString(-i)
  {
    if i < 0 then "-" + NatToString(-i) else NatToString(i)
  }

  /** Length of the run of digits at the start of `s`. */
  function LeadingDigits(s: string): (n: nat)
    ensures n <= |s|
    ensures AllDigits(s[..n])
    ensures n < |s| ==> !IsDigit(s[n])
  {
    if |s| > 0 && IsDigit(s[0]) then
      var k := LeadingDigits(s[1..]);
      assert s[..1 + k] == [s[0]] + s[1..][..k];
      1 + k
    else 0
  }

  lemma {:induction false} LeadingDigitsAll(s: string, t: string)
    requires AllDigits(s)
    requires |t| == 0 || !IsDigit(t[0])
    ensures LeadingDigits(s + t) == |s|
    decreases |s|
  {
    if |s| > 0 {
      assert (s + t)[1..] == s[1..] + t;
      LeadingDigitsAll(s[1..], t);
    }
  }

  /**
   * `parseInt(s, 10)`: leading whitespace, an optional sign, then the longest
   * run of digits; `None` (NaN) when there is no digit to read.
   */
  function ParseInt(s: string): (r: Option<int>)
    ensures r.None? ==> LeadingDigits(TrimStart(s)) == 0
                        && (|TrimStart(s)| == 0 || (TrimStart(s)[0] != '+' && TrimStart(s)[0] != '-')
                            || LeadingDigits(TrimStart(s)[1..]) == 0)
    ensures var t := TrimStart(s);
            var signed := |t| > 0 && (t[0] == '+' || t[0] == '-');
            var u := if signed then t[1..] else t;
            LeadingDigits(u) > 0 ==>
              r == Some(if signed && t[0] == '-' then 0 - DigitsValue(u[..LeadingDigits(u)]) as int else DigitsValue(u[..LeadingDigits(u)]))
  {
    var t := TrimStart(s);
    var neg := |t| > 0 && t[0] == '-';
    var u := if |t| > 0 && (t[0] == '+' || t[0] == '-') then t[1..] else t;
    var n := LeadingDigits(u);
    if n == 0 then None
    else if neg then Some(0 - DigitsValue(u[..n]) as int)
    else Some(DigitsValue(u[..n]))
  }

  /** A digit string, followed by anything that is not a digit, parses to its value. */
  lemma {:induction false} ParseIntDigits(s: string, t: string)
    requires |s| >= 1 && AllDigits(s)
    requires |t| == 0 || !IsDigit(t[0])
    ensures ParseInt(s + t) == Some(DigitsValue(s))
  {
    assert LeadingSpaces(s + t) == 0;
    LeadingDigitsAll(s, t);
    assert (s + t)[..|s|] == s;
  }

  /**
   * Whitespace, an optional sign, digits, then anything not starting with a
   * digit: `parseInt` reads the digits, negated after a '-'.
   */
  lemma ParseIntSigned(ws: string, sign: string, d: string, rest: string)
    requires AllSpace(ws)
    requires sign == "" || sign == "+" || sign == "-"
    requires |d| >= 1 && AllDigits(d)
    requires |rest| == 0 || !IsDigit(rest[0])
    ensures ParseInt(ws + sign + d + rest) == Some(if sign == "-" then 0 - DigitsValue(d) as int else DigitsValue(d))
  {
    DigitsThen(d, rest);
    ParseIntDigitRun(ws, sign, d, rest);
  }

  /** `d` is exactly the digit run at the front of `d + rest`. */
  lemma DigitsThen(d: string, rest: string)
    requires AllDigits(d)
    requires |rest| == 0 || !IsDigit(rest[0])
    ensures LeadingDigits(d + rest) == |d| && (d + rest)[..|d|] == d
  {
    LeadingDigitsAll(d, rest);
    assert (d + rest)[..|d|] == d;
  }

  lemma ParseIntDigitRun(ws: string, sign: string, d: string, rest: string)
    requires AllSpace(ws)
    requires sign == "" || sign == "+" || sign == "-"
    requires |d| >= 1 && LeadingDigits(d + rest) == |d| && (d + rest)[..|d|] == d
    ensures ParseInt(ws + sign + d + rest) == Some(if sign == "-" then 0 - DigitsValue(d) as int else DigitsValue(d))
  {
    var x := sign + (d + rest);
    ParseIntSignedRun(sign, d, rest);
    ParseIntAfterSpaces(ws, x);
    ConcatRegroup(ws, sign, d, rest);
  }

  lemma ConcatRegroup(a: string, b: string, c: string, d: string)
    ensures a + b + c + d == a + (b + (c + d))
  {
  }

  lemma ParseIntAfterSpaces(ws: string, x: string)
    requires AllSpace(ws) && |x| > 0 && !IsSpace(x[0])
    ensures ParseInt(ws + x) == ParseInt(x)
  {
    TrimStartSpaces(ws, x);
    ParseIntSameStart(ws + x, x);
  }

  lemma ParseIntSignedRun(sign: string, d: string, rest: string)
    requires sign == "" || sign == "+" || sign == "-"
    requires |d| >= 1 && LeadingDigits(d + rest) == |d| && (d + rest)[..|d|] == d
    ensures var x := sign + (d + rest);
            && |x| > 0 && !IsSpace(x[0])
            && ParseInt(x) == Some(if sign == "-" then 0 - DigitsValue(d) as int else DigitsValue(d))
  {
    var u := d + rest;
    if sign == "" {
      ParseIntUnsigned(u);
      assert sign + u == u;
    } else {
      ParseIntSignThen(sign[0], u);
      assert sign + u == [sign[0]] + u;
    }
  }

  /** With no sign, `parseInt` reads the digit run at the front. */
  lemma ParseIntUnsigned(u: string)
    requires LeadingDigits(u) > 0
    ensures !IsSpace(u[0]) && TrimStart(u) == u
    ensures ParseInt(u) == Some(DigitsValue(u[..LeadingDigits(u)]))
  {
    assert u[..LeadingDigits(u)][0] == u[0];
    assert LeadingSpaces(u) == 0;
  }

  /** After a sign, `parseInt` reads the digit run that follows it. */
  lemma ParseIntSignThen(c: char, u: string)
    requires c == '+' || c == '-'
    requires LeadingDigits(u) > 0
    ensures !IsSpace(([c] + u)[0]) && TrimStart([c] + u) == [c] + u
    ensures c == '-' ==> ParseInt([c] + u) == Some(0 - DigitsValue(u[..LeadingDigits(u)]) as int)
    ensures c == '+' ==> ParseInt([c] + u) == Some(DigitsValue(u[..LeadingDigits(u)]))
  {
    var x := [c] + u;
    assert LeadingSpaces(x) == 0;
    assert x[1..] == u;
  }

  /** `parseInt` looks only at the text after the leading whitespace. */
  lemma ParseIntSameStart(a: string, b: string)
    requires TrimStart(a) == TrimStart(b)
    ensures ParseInt(a) == ParseInt(b)
  {
  }

  lemma TrimStartSpaces(ws: string, x: string)
    requires AllSpace(ws) && |x| > 0 && !IsSpace(x[0])
    ensures TrimStart(ws + x) == x
  {
    LeadingSpacesAfterSpaces(ws, x);
  }

  /** `parseInt(String(i))` reads back every integer. */
  lemma ParseIntToString(i: int)
    ensures ParseInt(IntToString(i)) == Some(i)
  {
    if i < 0 {
      var d := NatToString(-i);
      assert LeadingSpaces("-" + d) == 0;
      assert ("-" + d)[1..] == d + "";
      LeadingDigitsAll(d, "");
      assert d[..|d|] == d;
    } else {
      ParseIntDigits(NatToString(i), "");
      assert NatToString(i) + "" == NatToString(i);
    }
  }

  /** `s.padStart(n, [c])`. */
  function PadStart(s: string, n: nat, c: char): (r: string)
    ensures |r| == if |s| >= n then |s| else n
    ensures s <= r[|r| - |s|..] && r[|r| - |s|..] == s
    ensures forall i :: 0 <= i < |r| - |s| ==> r[i] == c
  {
    if |s| >= n then s else seq(n - |s|, _ => c) + s
  }

  /** Whether `w` occurs in `s` starting at index `i`. */
  predicate OccursAt(s: string, w: string, i: nat)
  {
    i + |w| <= |s| && s[i..i + |w|] == w
  }

  /** `s.includes(w)`, equivalently `/w/.test(s)` for a literal `w`. */
  predicate Contains(s: string, w: string)
  {
    exists i: nat :: i + |w| <= |s| && OccursAt(s, w, i)
  }
}
