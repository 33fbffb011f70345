/**
 * The labels of the résumé page: the years shown on an experience folder
 * tab, read out of a job's `period` ("MM/YYYY - MM/YYYY" or
 * "MM/YYYY - Present"), the two-digit ordinal before each achievement, and
 * the letter of each field-report exhibit.
 */
module FolderTab {
  import opened Wrappers
  import opened Text

  /** `parts[i]`, or `None` (JavaScript's `undefined`) past the end. */
  function At(parts: seq<string>, i: nat): (r: Option<string>)
    ensures r.Some? <==> i < |parts|
    ensures r.Some? ==> r.value == parts[i]
  {
    if i < |parts| then Some(parts[i]) else None
  }

  /**
   * What a tab shows: its start and end years (`None` where the label reads
   * `undefined`), or `Throws` when the period has no end part, so that
   * `endPart.split` is called on `undefined`.
   */
  datatype Tab = Years(start: Option<string>, end: Option<string>) | Throws

  /**
   * The start year is the second "/"-piece of the text before " - "; the end
   * year is "Now" for "Present" and otherwise the second "/"-piece of the
   * text after it.
   */
  function TabYears(period: string): (t: Tab)
    ensures t.Throws? <==> !Contains(period, " - ")
    ensures t.Years? && t.start.Some? ==> '/' !in t.start.value
    ensures t.Years? && t.end.Some? ==> t.end.value == "Now" || '/' !in t.end.value
  {
    SplitOnSingle(period, " - ");
    var halves := SplitOn(period, " - ");
    var start := At(SplitOn(halves[0], "/"), 1);
    match At(halves, 1)
    case None => Throws
    case Some(endPart) =>
      Years(start, if endPart == "Present" then Some("Now") else At(SplitOn(endPart, "/"), 1))
  }

  /** A split yields a single piece exactly when the separator does not occur. */
  lemma {:induction false} SplitOnSingle(s: string, sep: string)
    requires |sep| > 0
    ensures |SplitOn(s, sep)| == 1 <==> !Contains(s, sep)
    decreases |s|
  {
    if |s| == 0 {
    } else if sep <= s {
      assert OccursAt(s, sep, 0);
    } else {
      SplitOnSingle(s[1..], sep);
      PrefixOccurs(s, sep);
      forall i: nat | i + |sep| <= |s[1..]| && OccursAt(s[1..], sep, i)
        ensures OccursAt(s, sep, i + 1)
      {
        DropSlice(s, i + 1, i + 1 + |sep|);
      }
      forall i: nat | i + |sep| <= |s| && OccursAt(s, sep, i)
        ensures i >= 1 && OccursAt(s[1..], sep, i - 1)
      {
        assert i >= 1;
        DropSlice(s, i, i + |sep|);
      }
    }
  }

  /** A slice of `s` past its first element is the same slice of its tail, shifted. */
  lemma DropSlice(s: string, a: nat, b: nat)
    requires 1 <= a <= b <= |s|
    ensures s[1..][a - 1..b - 1] == s[a..b]
  {
    var x, y := s[1..][a - 1..b - 1], s[a..b];
    assert |x| == |y|;
    forall k | 0 <= k < |x| ensures x[k] == y[k] {
      assert x[k] == s[a + k];
    }
  }

  /** `sep` occurs at the very start exactly when it is a prefix. */
  lemma PrefixOccurs(s: string, sep: string)
    ensures OccursAt(s, sep, 0) <==> sep <= s
  {
  }

  /** The tab throws exactly when the period contains no " - ". */
  lemma TabYearsThrows(period: string)
    ensures TabYears(period).Throws? <==> !Contains(period, " - ")
  {
    SplitOnSingle(period, " - ");
  }

  /** A text without '-' holds no " - ", so it is one piece. */
  lemma {:induction false} SplitDashNone(y: string)
    requires '-' !in y
    ensures SplitOn(y, " - ") == [y]
    decreases |y|
  {
    if |y| > 0 {
      assert !(" - " <= y) by {
        if |y| >= 3 {
          assert y[1] in y;
        }
      }
      SplitDashNone(y[1..]);
      assert [y[0]] + y[1..] == y;
    }
  }

  /** Two '-'-free texts joined by " - " split back into the two. */
  lemma {:induction false} SplitDashPair(x: string, y: string)
    requires '-' !in x && '-' !in y
    ensures SplitOn(x + " - " + y, " - ") == [x, y]
    decreases |x|
  {
    var s := x + " - " + y;
    if |x| == 0 {
      assert s == " - " + y && " - " <= s && s[3..] == y;
      SplitDashNone(y);
    } else {
      assert s[1] != '-' by {
        if |x| >= 2 {
          assert s[1] == x[1] && x[1] in x;
        } else {
          assert s[1] == ' ';
        }
      }
      assert !(" - " <= s) by {
        assert " - "[1] == '-';
      }
      assert s[1..] == x[1..] + " - " + y;
      assert forall c :: c in x[1..] ==> c in x;
      SplitDashPair(x[1..], y);
      assert [x[0]] + x[1..] == x;
    }
  }

  /** Two '/'-free texts joined by "/" split back into the two. */
  lemma SplitSlashPair(a: string, b: string)
    requires '/' !in a && '/' !in b
    ensures SplitOn(a + "/" + b, "/") == [a, b]
  {
    SplitOnJoin([a, b], '/');
    assert Join([a, b], "/") == a + "/" + Join([b], "/");
    assert ['/'] == "/";
  }

  /** The fields of a date written "MM/YYYY" are free of separators. */
  predicate Field(s: string)
  {
    '/' !in s && '-' !in s
  }

  /** A closed period "m1/y1 - m2/y2" shows the two years. */
  lemma {:induction false} TabYearsRange(m1: string, y1: string, m2: string, y2: string)
    requires Field(m1) && Field(y1) && Field(m2) && Field(y2)
    ensures TabYears(m1 + "/" + y1 + " - " + m2 + "/" + y2) == Years(Some(y1), Some(y2))
  {
    var a := m1 + "/" + y1;
    var b := m2 + "/" + y2;
    assert forall c :: c in a ==> c in m1 || c in y1 || c == '/';
    assert forall c :: c in b ==> c in m2 || c in y2 || c == '/';
    SplitDashPair(a, b);
    assert m1 + "/" + y1 + " - " + m2 + "/" + y2 == a + " - " + b;
    SplitSlashPair(m1, y1);
    SplitSlashPair(m2, y2);
    assert b != "Present" by {
      assert b[|m2|] == '/' && '/' !in "Present";
    }
  }

  /** An open period "m/y - Present" shows the start year and "Now". */
  lemma {:induction false} TabYearsPresent(m: string, y: string)
    requires Field(m) && Field(y)
    ensures TabYears(m + "/" + y + " - Present") == Years(Some(y), Some("Now"))
  {
    var a := m + "/" + y;
    assert forall c :: c in a ==> c in m || c in y || c == '/';
    assert '-' !in "Present";
    SplitDashPair(a, "Present");
    assert m + "/" + y + " - Present" == a + " - " + "Present";
    SplitSlashPair(m, y);
  }

  /** The current job's period, "09/2025 - Present", shows 2025 to "Now". */
  lemma TabYearsCurrentJob(period: string)
    requires period == "09/2025 - Present"
    ensures TabYears(period) == Years(Some("2025"), Some("Now"))
  {
    assert period == "09" + "/" + "2025" + " - Present";
    TabYearsPresent("09", "2025");
  }

  /** The earlier jobs' periods show their two years. */
  lemma {:induction false} TabYearsPastJobs(period: string)
    requires period == "01/2021 - 08/2025" || period == "02/2018 - 01/2021"
    ensures period == "01/2021 - 08/2025" ==> TabYears(period) == Years(Some("2021"), Some("2025"))
    ensures period == "02/2018 - 01/2021" ==> TabYears(period) == Years(Some("2018"), Some("2021"))
  {
    if period == "01/2021 - 08/2025" {
      assert period == "01" + "/" + "2021" + " - " + "08" + "/" + "2025";
      TabYearsRange("01", "2021", "08", "2025");
    } else {
      assert period == "02" + "/" + "2018" + " - " + "01" + "/" + "2021";
      TabYearsRange("02", "2018", "01", "2021");
    }
  }

  /** `String(i + 1).padStart(2, "0")`: the label of the achievement at index `i`. */
  function Ordinal(i: nat): (r: string)
    ensures AllDigits(r)
  {
    PadStart(IntToString(i + 1), 2, '0')
  }

  /**
   * Up to 99 the label is exactly two digits and reads back as `i + 1`;
   * from 100 on it is the number itself.
   */
  lemma OrdinalReadsBack(i: nat)
    ensures i + 1 <= 99 ==> |Ordinal(i)| == 2
    ensures DigitsValue(Ordinal(i)) == i + 1
    ensures ParseInt(Ordinal(i)) == Some(i + 1)
    ensures i + 1 >= 100 ==> Ordinal(i) == NatToString(i + 1)
  {
    var d := NatToString(i + 1);
    if i + 1 < 10 {
      assert Ordinal(i) == "0" + d;
      DigitsValueLeadingZero(d);
    }
    assert Ordinal(i) + "" == Ordinal(i);
    ParseIntDigits(Ordinal(i), "");
  }

  /** Different achievements get different labels. */
  lemma OrdinalInjective(i: nat, j: nat)
    requires i != j
    ensures Ordinal(i) != Ordinal(j)
  {
    OrdinalReadsBack(i);
    OrdinalReadsBack(j);
  }

  /**
   * `String.fromCharCode(65 + i)`: the UTF-16 code unit of the exhibit
   * letter, the argument taken modulo 2^16 as `ToUint16` does.
   */
  function ExhibitCode(i: nat): (u: int)
    ensures 0 <= u < 0x1_0000
  {
    (65 + i) % 0x1_0000
  }

  /** The first 26 exhibits are lettered 'A' to 'Z' in order, starting at 'A'. */
  lemma ExhibitLetters(i: nat)
    requires i < 26
    ensures IsUpper(ExhibitCode(i) as char)
    ensures ExhibitCode(i) == 'A' as int + i
    ensures i == 0 ==> ExhibitCode(i) as char == 'A'
  {
  }
}
