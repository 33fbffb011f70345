/**
 * The vinyl dashboard's state: durations as the data file writes them and as
 * the track table prints them, the cleaning of each loaded row (with the
 * hand-entered duration overrides), the default year range, the filter state
 * kept in the page's query string, and the controls that change the year
 * range (the steppers, the preset chips and a click on a year bar).
 *
 * JavaScript numbers in the query string may be `NaN`; they are `Num`.
 * Durations and years are integers; the floating-point `mins` column is
 * outside the model.
 */
module Dashboard {
  import opened Wrappers
  import opened Text
  import opened Seqs

  /* ---------------- durations ---------------- */

  /** A duration as the data file may hold it. */
  datatype RawDuration = Null | Number(n: int) | NonFinite | Str(s: string)

  /**
   * `toSecs`: a finite number is already in seconds; a string "m:s" or "m"
   * is read with `parseInt` on each side of the first ':' (unreadable
   * seconds count as 0); anything else is `None`.
   */
  function ToSecs(v: RawDuration): (r: Option<int>)
    ensures v.Null? || v.NonFinite? ==> r.None?
    ensures v.Number? ==> r == Some(v.n)
  {
    match v
    case Null => None
    case NonFinite => None
    case Number(n) => Some(n)
    case Str(s) => FromParts(SplitOn(s, ":"))
  }

  /**
   * The seconds in the ':'-pieces of a duration string: `parseInt` of the
   * first piece is minutes and of the second seconds, where a missing
   * second piece is read from "0" and unreadable seconds count as 0.
   */
  function FromParts(parts: seq<string>): (r: Option<int>)
    requires |parts| >= 1
    ensures r.None? <==> ParseInt(parts[0]).None?
    ensures r.Some? && |parts| == 1 ==> r.value == ParseInt(parts[0]).value * 60
  {
    var m := ParseInt(parts[0]);
    var sec := if |parts| > 1 then ParseInt(parts[1]) else Some(0);
    if m.Some? then Some(m.value * 60 + sec.GetOr(0)) else None
  }

  /** Splitting at a ':' that follows a ':'-free prefix gives the prefix first. */
  lemma {:induction false} SplitAtColon(a: string, b: string)
    requires ':' !in a
    ensures SplitOn(a + ":" + b, ":") == [a] + SplitOn(b, ":")
  {
    SplitOnPrefix(a, ":" + b, ':');
    assert a + ":" + b == a + (":" + b);
    assert ":" <= ":" + b && (":" + b)[1..] == b;
    assert SplitOn(":" + b, ":") == [""] + SplitOn(b, ":");
    assert a + "" == a;
  }

  lemma DigitsLackColon(m: string)
    requires AllDigits(m)
    ensures ':' !in m
  {
    forall i | 0 <= i < |m| ensures m[i] != ':' {
      assert IsDigit(m[i]);
    }
  }

  /** `toSecs` of a string is what its ':'-pieces read as. */
  lemma {:induction false} ToSecsSplit(x: string, parts: seq<string>, r: Option<int>)
    requires |parts| >= 1 && SplitOn(x, ":") == parts && FromParts(parts) == r
    ensures ToSecs(Str(x)) == r
  {
  }

  lemma FromPartsTwo(m: string, s: string, a: int, b: int)
    requires ParseInt(m) == Some(a) && ParseInt(s) == Some(b)
    ensures FromParts([m, s]) == Some(a * 60 + b)
  {
  }

  lemma FromPartsOne(m: string, a: int)
    requires ParseInt(m) == Some(a)
    ensures FromParts([m]) == Some(a * 60)
  {
  }

  lemma FromPartsNoSeconds(m: string, s: string, a: int)
    requires ParseInt(m) == Some(a) && ParseInt(s).None?
    ensures FromParts([m, s]) == Some(a * 60)
  {
  }

  lemma FromPartsNoMinutes(parts: seq<string>)
    requires |parts| >= 1 && ParseInt(parts[0]).None?
    ensures FromParts(parts) == None
  {
  }

  lemma {:induction false} ColonParts(m: string, s: string)
    requires AllDigits(m) && AllDigits(s)
    ensures SplitOn(m + ":" + s, ":") == [m, s]
  {
    DigitsLackColon(m);
    DigitsLackColon(s);
    SplitAtColon(m, s);
    SplitOnPrefix(s, "", ':');
    assert s + "" == s;
  }

  lemma {:induction false} ParseAllDigits(m: string)
    requires |m| >= 1 && AllDigits(m)
    ensures ParseInt(m) == Some(DigitsValue(m))
  {
    ParseIntDigits(m, "");
    assert m + "" == m;
  }

  /** "m:s" with digit strings m and s is m * 60 + s seconds. */
  lemma {:induction false} ToSecsMinutesSeconds(x: string, m: string, s: string)
    requires |m| >= 1 && AllDigits(m) && |s| >= 1 && AllDigits(s)
    requires x == m + ":" + s
    ensures ToSecs(Str(x)) == Some(DigitsValue(m) * 60 + DigitsValue(s))
  {
    ToSecsOfDigits(x, m, s, DigitsValue(m), DigitsValue(s), DigitsValue(m) * 60 + DigitsValue(s));
  }

  lemma ToSecsOfDigits(x: string, m: string, s: string, a: nat, b: nat, total: int)
    requires |m| >= 1 && AllDigits(m) && DigitsValue(m) == a
    requires |s| >= 1 && AllDigits(s) && DigitsValue(s) == b
    requires x == m + ":" + s && total == a * 60 + b
    ensures ToSecs(Str(x)) == Some(total)
  {
    ColonParts(m, s);
    ParseAllDigits(m);
    ParseAllDigits(s);
    ToSecsOfParsed(x, m, s, a, b, total);
  }

  lemma {:induction false} ToSecsOfParsed(x: string, m: string, s: string, a: int, b: int, total: int)
    requires SplitOn(x, ":") == [m, s]
    requires ParseInt(m) == Some(a) && ParseInt(s) == Some(b) && total == a * 60 + b
    ensures ToSecs(Str(x)) == Some(total)
  {
    FromPartsTwo(m, s, a, b);
    ToSecsSplit(x, [m, s], Some(total));
  }


  /** A bare "m" is m minutes. */
  lemma {:induction false} ToSecsMinutesOnly(m: string)
    requires |m| >= 1 && AllDigits(m)
    ensures ToSecs(Str(m)) == Some(DigitsValue(m) * 60)
  {
    DigitsLackColon(m);
    SplitOnPrefix(m, "", ':');
    assert m + "" == m;
    ParseAllDigits(m);
    FromPartsOne(m, DigitsValue(m));
    ToSecsSplit(m, [m], Some(DigitsValue(m) * 60));
  }

  /** Seconds that do not read as a number count as 0: "m:xx" is m minutes. */
  lemma {:induction false} ToSecsUnreadableSeconds(m: string, s: string)
    requires |m| >= 1 && AllDigits(m)
    requires ':' !in s && ParseInt(s).None?
    ensures ToSecs(Str(m + ":" + s)) == Some(DigitsValue(m) * 60)
  {
    DigitsLackColon(m);
    SplitAtColon(m, s);
    SplitOnPrefix(s, "", ':');
    assert s + "" == s;
    ParseAllDigits(m);
    FromPartsNoSeconds(m, s, DigitsValue(m));
    ToSecsSplit(m + ":" + s, [m, s], Some(DigitsValue(m) * 60));
  }

  /** Minutes that do not read as a number make the whole duration `None`. */
  lemma {:induction false} ToSecsUnreadableMinutes(m: string, s: string)
    requires ':' !in m && ParseInt(m).None?
    ensures ToSecs(Str(m + ":" + s)) == None
  {
    SplitAtColon(m, s);
    var parts := [m] + SplitOn(s, ":");
    FromPartsNoMinutes(parts);
    ToSecsSplit(m + ":" + s, parts, None);
  }

  /**
   * The track table's "Len" column: `Math.floor(secs / 60)`, a ':', and
   * `String(secs % 60).padStart(2, "0")`.
   */
  function FormatDuration(secs: int): (r: string)
    ensures secs >= 0 ==> |r| >= 4 && r[|r| - 3] == ':' && AllDigits(r[|r| - 2..])
  {
    var m := IntToString(secs / 60);
    var b := PadStart(IntToString(JsRem(secs, 60)), 2, '0');
    SecondsField(secs);
    ColonTail(m, b);
    m + ":" + b
  }

  /** A non-negative length's seconds field is two digits. */
  lemma SecondsField(secs: int)
    ensures secs >= 0 ==> var b := PadStart(IntToString(JsRem(secs, 60)), 2, '0');
                          |b| == 2 && AllDigits(b)
  {
    if secs >= 0 {
      assert JsRem(secs, 60) == secs % 60;
      TwoDigits(secs % 60);
    }
  }

  lemma ColonTail(m: string, b: string)
    ensures |b| == 2 ==> var r := m + ":" + b;
                         |r| == |m| + 3 && r[|r| - 3] == ':' && r[|r| - 2..] == b
  {
    if |b| == 2 {
      var r := m + ":" + b;
      assert r[|r| - 2..] == b;
    }
  }

  /** A number below 100, padded to two places, is two digits with that value. */
  lemma TwoDigits(n: nat)
    requires n < 100
    ensures var b := PadStart(NatToString(n), 2, '0');
            |b| == 2 && AllDigits(b) && DigitsValue(b) == n
  {
    var d := NatToString(n);
    if n < 10 {
      var b := PadStart(d, 2, '0');
      assert b == "0" + d;
      DigitsValueLeadingZero(d);
    }
  }

  /** Printing a non-negative duration and reading it back gives the same number of seconds. */
  lemma {:induction false} ToSecsFormatDuration(secs: nat)
    ensures ToSecs(Str(FormatDuration(secs))) == Some(secs)
  {
    var q, rem := DivMod60(secs);
    var mm := NatToString(q);
    var ss := PadStart(NatToString(rem), 2, '0');
    TwoDigits(rem);
    var x := FormatDuration(secs);
    assert x == mm + ":" + ss by {
      FormatDurationParts(secs);
    }
    ToSecsOfDigits(x, mm, ss, q, rem, secs);
  }

  lemma FormatDurationParts(secs: nat)
    ensures FormatDuration(secs) == NatToString(secs / 60) + ":" + PadStart(NatToString(secs % 60), 2, '0')
  {
  }

  lemma DivMod60(secs: nat) returns (q: nat, rem: nat)
    ensures q == secs / 60 && rem == secs % 60
    ensures rem < 60 && q * 60 + rem == secs
  {
    q, rem := secs / 60, secs % 60;
  }

  /* ---------------- loaded rows ---------------- */

  /**
   * Durations entered by hand for tracks whose data lacks them, keyed by
   * "artist|||title". Both spellings of "Parts I-V" (en dash and hyphen)
   * are listed.
   */
  const ManualDurations: map<string, int> := map[
    "The Who|||5:15" := 300,
    "ZZ Top|||Waiting for the Bus/Jesus Just Left Chicago" := 383,
    "Pink Floyd|||Speak to Me/Breathe/On the Run" := 461,
    "Pink Floyd|||Brain Damage/Eclipse" := 358,
    "The Beatles|||Sgt. Pepper's Lonely Hearts Club Band / With a Little Help from My Friends" := 286,
    "Led Zeppelin|||Heartbreaker / Living Loving Maid (She's Just a Woman)" := 415,
    "Pink Floyd|||Shine On You Crazy Diamond (Parts I\U{2013}V)" := 813,
    "Pink Floyd|||Shine On You Crazy Diamond (Parts I-V)" := 813
  ]

  /** The `labels` field: an array, a single value, or absent/empty. */
  datatype LabelField = NoLabels | OneLabel(name: string) | LabelList(names: seq<string>)

  /** A row of the data file, before cleaning. */
  datatype RawRow = RawRow(artist: Option<string>, title: Option<string>, year: Option<int>,
                           labels: LabelField, secs: Option<int>)

  /** A cleaned row, as the dashboard uses it. */
  datatype Row = Row(artist: string, title: string, year: Option<int>, labels: seq<string>, secs: Option<int>)

  /** `s || ""`. */
  function OrEmpty(s: Option<string>): (r: string)
    ensures s.Some? ==> r == s.value
  {
    if s.Some? then s.value else ""
  }

  /** The override key `${artist || ""}|||${title || ""}`. */
  function OverrideKey(r: RawRow): string
  {
    OrEmpty(r.artist) + "|||" + OrEmpty(r.title)
  }

  /**
   * The cleaning step applied to every loaded row: a hand-entered duration
   * wins over the row's own, missing text fields become "", and `labels`
   * becomes a list.
   */
  function CleanRow(r: RawRow): (c: Row)
    ensures OverrideKey(r) in ManualDurations ==> c.secs == Some(ManualDurations[OverrideKey(r)])
    ensures OverrideKey(r) !in ManualDurations ==> c.secs == r.secs
    ensures c.artist + "|||" + c.title == OverrideKey(r)
    ensures c.year == r.year
    ensures r.labels.LabelList? ==> c.labels == r.labels.names
    ensures r.labels.OneLabel? && r.labels.name != "" ==> c.labels == [r.labels.name]
    ensures r.labels.NoLabels? || r.labels == OneLabel("") ==> c.labels == []
  {
    var labels := match r.labels
      case LabelList(ls) => ls
      case OneLabel(l) => if l != "" then [l] else []
      case NoLabels => [];
    var key := OverrideKey(r);
    var secs := if key in ManualDurations then ToSecs(Number(ManualDurations[key])) else r.secs;
    Row(OrEmpty(r.artist), OrEmpty(r.title), r.year, labels, secs)
  }

  /** The override for "The Who" / "5:15" replaces whatever duration the row had. */
  lemma CleanRowWho(secs: Option<int>, labels: LabelField, year: Option<int>)
    ensures CleanRow(RawRow(Some("The Who"), Some("5:15"), year, labels, secs)).secs == Some(300)
  {
    var r := RawRow(Some("The Who"), Some("5:15"), year, labels, secs);
    assert OverrideKey(r) == "The Who|||5:15";
  }

  /** A row without an override keeps its own duration, including a missing one. */
  lemma CleanRowNoOverride(r: RawRow)
    requires OverrideKey(r) !in ManualDurations
    ensures CleanRow(r).secs == r.secs
  {
  }

  /* ---------------- year domain and defaults ---------------- */

  /** `[Math.min(...years, 1960), Math.max(...years, 1985)]` over the rows that have a year. */
  function YearDomain(data: seq<Row>): (d: (int, int))
    ensures d.0 <= 1960 && 1985 <= d.1
    ensures forall i :: 0 <= i < |data| && data[i].year.Some? ==> d.0 <= data[i].year.value <= d.1
    ensures d.0 == 1960 || exists i :: 0 <= i < |data| && data[i].year == Some(d.0)
    ensures d.1 == 1985 || exists i :: 0 <= i < |data| && data[i].year == Some(d.1)
  {
    if |data| == 0 then (1960, 1985)
    else
      var p := data[..|data| - 1];
      var d := YearDomain(p);
      assert forall i :: 0 <= i < |p| ==> p[i] == data[i];
      match data[|data| - 1].year
      case None => d
      case Some(y) => (if y < d.0 then y else d.0, if y > d.1 then y else d.1)
  }

  datatype Defaults = Defaults(ymin: int, ymax: int, dmax: int)

  /** `{ ymin: domain[0] || 1960, ymax: domain[1] || 1985, dmax: 31 }`. */
  function DefaultsOf(data: seq<Row>): (d: Defaults)
    ensures d.ymin <= 1960 && 1985 <= d.ymax && d.dmax == 31
    ensures forall i :: 0 <= i < |data| && data[i].year.Some? ==> data[i].year.value <= d.ymax
    ensures (forall i :: 0 <= i < |data| ==> data[i].year != Some(0)) ==>
              forall i :: 0 <= i < |data| && data[i].year.Some? ==> d.ymin <= data[i].year.value
  {
    var dom := YearDomain(data);
    Defaults(if dom.0 != 0 then dom.0 else 1960, if dom.1 != 0 then dom.1 else 1985, 31)
  }

  /* ---------------- query-string state ---------------- */

  /** A JavaScript number read with `parseInt`: an integer or `NaN`. */
  datatype Num = NaN | Int(n: int)

  function ToNum(o: Option<int>): (x: Num)
    ensures x.Int? <==> o.Some?
    ensures o.Some? ==> x.n == o.value
  {
    if o.Some? then Int(o.value) else NaN
  }

  /** `String(x)`. */
  function NumToString(x: Num): string
  {
    match x
    case NaN => "NaN"
    case Int(n) => IntToString(n)
  }

  /** `parseInt(String(x), 10)` gives `x` back, `NaN` included. */
  lemma ParseNumToString(x: Num)
    ensures ToNum(ParseInt(NumToString(x))) == x
  {
    if x.Int? {
      ParseIntToString(x.n);
    } else {
      assert LeadingSpaces("NaN") == 0;
      assert LeadingDigits("NaN") == 0;
    }
  }

  /** The filter state: year range, maximum length in minutes, selected artists and labels. */
  datatype State = State(ymin: Num, ymax: Num, dmax: Num, art: seq<string>, lab: seq<string>)

  /** The query string, as `URLSearchParams.get` sees it. */
  type Params = map<string, string>

  /** `parseInt(params.get(k) ?? String(fallback), 10)`. */
  function DecodeNum(p: Params, k: string, fallback: int): (x: Num)
    ensures k !in p ==> x == Int(fallback)
    ensures k in p ==> (x.NaN? <==> ParseInt(p[k]).None?)
    ensures k in p && x.Int? ==> x.n == ParseInt(p[k]).value
  {
    var v := if k in p then p[k] else IntToString(fallback);
    ParseIntToString(fallback);
    ToNum(ParseInt(v))
  }

  /** A list entry that survives the trip through the query string. */
  predicate ListItem(x: string)
  {
    x != "" && '|' !in x
  }

  /** `params.get(k) ? params.get(k).split("|").filter(Boolean) : []`. */
  function DecodeList(p: Params, k: string): (r: seq<string>)
    ensures forall i :: 0 <= i < |r| ==> ListItem(r[i])
    ensures k !in p || p[k] == "" ==> r == []
  {
    if k in p && p[k] != "" then
      var r := Filter(NonEmpty, SplitOn(p[k], "|"));
      assert forall i :: 0 <= i < |r| ==> r[i] in SplitOn(p[k], "|");
      r
    else []
  }

  /** The state the page reads from its query string. */
  function Decode(p: Params, d: Defaults): (s: State)
    ensures "ymin" !in p ==> s.ymin == Int(d.ymin)
    ensures "ymax" !in p ==> s.ymax == Int(d.ymax)
    ensures "dmax" !in p ==> s.dmax == Int(d.dmax)
    ensures forall i :: 0 <= i < |s.art| ==> ListItem(s.art[i])
    ensures forall i :: 0 <= i < |s.lab| ==> ListItem(s.lab[i])
  {
    State(DecodeNum(p, "ymin", d.ymin), DecodeNum(p, "ymax", d.ymax), DecodeNum(p, "dmax", d.dmax),
          DecodeList(p, "art"), DecodeList(p, "lab"))
  }

  /** The query string written for a state: the numbers always, each list only when non-empty. */
  function Encode(s: State): (p: Params)
    ensures "ymin" in p && "ymax" in p && "dmax" in p
    ensures "art" in p <==> |s.art| > 0
    ensures "lab" in p <==> |s.lab| > 0
  {
    var p := map["ymin" := NumToString(s.ymin), "ymax" := NumToString(s.ymax), "dmax" := NumToString(s.dmax)];
    var p := if |s.art| > 0 then p["art" := Join(s.art, "|")] else p;
    if |s.lab| > 0 then p["lab" := Join(s.lab, "|")] else p
  }

  /** A non-empty list of query-safe entries reads back from its joined form. */
  lemma DecodeJoin(xs: seq<string>, p: Params, k: string)
    requires |xs| > 0 && forall i :: 0 <= i < |xs| ==> ListItem(xs[i])
    requires k in p && p[k] == Join(xs, "|")
    ensures DecodeList(p, k) == xs
  {
    assert xs[0] != "";
    JoinNonEmpty(xs);
    SplitOnJoin(xs, '|');
    FilterAll(NonEmpty, xs);
  }

  lemma {:induction false} JoinNonEmpty(xs: seq<string>)
    requires |xs| > 0 && xs[0] != ""
    ensures Join(xs, "|") != []
  {
    if |xs| > 1 {
      assert Join(xs, "|") == xs[0] + "|" + Join(xs[1..], "|");
    }
  }

  /**
   * Shared links restore the state: decoding an encoded state gives it back,
   * whatever the defaults, as long as every selected artist and label is a
   * non-empty string without '|'.
   */
  lemma DecodeEncode(s: State, d: Defaults)
    requires forall i :: 0 <= i < |s.art| ==> ListItem(s.art[i])
    requires forall i :: 0 <= i < |s.lab| ==> ListItem(s.lab[i])
    ensures Decode(Encode(s), d) == s
  {
    var p := Encode(s);
    EncodeFields(s);
    ParseNumToString(s.ymin);
    ParseNumToString(s.ymax);
    ParseNumToString(s.dmax);
    assert DecodeNum(p, "ymin", d.ymin) == s.ymin;
    assert DecodeNum(p, "ymax", d.ymax) == s.ymax;
    assert DecodeNum(p, "dmax", d.dmax) == s.dmax;
    if |s.art| > 0 {
      DecodeJoin(s.art, p, "art");
    }
    if |s.lab| > 0 {
      DecodeJoin(s.lab, p, "lab");
    }
    assert DecodeList(p, "art") == s.art;
    assert DecodeList(p, "lab") == s.lab;
  }

  /** What each key of the encoded query string holds. */
  lemma EncodeFields(s: State)
    ensures var p := Encode(s);
            && p["ymin"] == NumToString(s.ymin) && p["ymax"] == NumToString(s.ymax)
            && p["dmax"] == NumToString(s.dmax)
            && (|s.art| > 0 ==> p["art"] == Join(s.art, "|"))
            && (|s.lab| > 0 ==> p["lab"] == Join(s.lab, "|"))
  {
    assert "art" != "lab" && "ymin" != "art" && "ymax" != "art" && "dmax" != "art";
    assert "ymin" != "lab" && "ymax" != "lab" && "dmax" != "lab";
  }

  /** The fields a control changes; the rest keep their current value. */
  datatype Patch = Patch(ymin: Option<Num>, ymax: Option<Num>, dmax: Option<Num>,
                         art: Option<seq<string>>, lab: Option<seq<string>>)

  /** `{ ...state, ...patch }`. */
  function Merge(s: State, patch: Patch): (r: State)
    ensures patch.ymin.None? ==> r.ymin == s.ymin
    ensures patch.ymin.Some? ==> r.ymin == patch.ymin.value
    ensures patch.ymax.None? ==> r.ymax == s.ymax
    ensures patch.ymax.Some? ==> r.ymax == patch.ymax.value
    ensures patch.dmax.None? ==> r.dmax == s.dmax
    ensures patch.dmax.Some? ==> r.dmax == patch.dmax.value
    ensures patch.art.None? ==> r.art == s.art
    ensures patch.art.Some? ==> r.art == patch.art.value
    ensures patch.lab.None? ==> r.lab == s.lab
    ensures patch.lab.Some? ==> r.lab == patch.lab.value
  {
    State(patch.ymin.GetOr(s.ymin), patch.ymax.GetOr(s.ymax), patch.dmax.GetOr(s.dmax),
          patch.art.GetOr(s.art), patch.lab.GetOr(s.lab))
  }

  predicate PatchListsSafe(patch: Patch)
  {
    && (patch.art.Some? ==> forall i :: 0 <= i < |patch.art.value| ==> ListItem(patch.art.value[i]))
    && (patch.lab.Some? ==> forall i :: 0 <= i < |patch.lab.value| ==> ListItem(patch.lab.value[i]))
  }

  /**
   * `setState(patch)`: the query string that replaces the current one. When
   * the patch's lists hold only non-empty, '|'-free entries, the page reads
   * back exactly the old state with the patch applied.
   */
  function SetState(p: Params, d: Defaults, patch: Patch): (r: Params)
    ensures PatchListsSafe(patch) ==> Decode(r, d) == Merge(Decode(p, d), patch)
  {
    var s := Merge(Decode(p, d), patch);
    if PatchListsSafe(patch) then
      DecodeEncode(s, d);
      Encode(s)
    else Encode(s)
  }

  /* ---------------- year-range controls ---------------- */

  /** `Math.max(lo, Math.min(hi, v))`: `NaN` anywhere gives `NaN`. */
  function Clamp(v: Num, lo: Num, hi: Num): (r: Num)
    ensures r.Int? <==> v.Int? && lo.Int? && hi.Int?
    ensures r.Int? && lo.n <= hi.n ==> lo.n <= r.n <= hi.n
    ensures r.Int? && lo.n <= v.n <= hi.n ==> r == v
    ensures r.Int? && hi.n < lo.n ==> r == lo
    ensures r.Int? && lo.n <= hi.n && v.n > hi.n ==> r == hi
    ensures r.Int? && lo.n <= hi.n && v.n < lo.n ==> r == lo
  {
    if v.NaN? || lo.NaN? || hi.NaN? then NaN
    else
      var m := if hi.n < v.n then hi.n else v.n;
      Int(if lo.n > m then lo.n else m)
  }

  /** `x + k` on a JavaScript number. */
  function Add(x: Num, k: int): Num
  {
    if x.Int? then Int(x.n + k) else NaN
  }

  /** The four "-" / "+" buttons beside the start and end year knobs. */
  datatype Stepper = StartDown | StartUp | EndDown | EndUp

  /**
   * The patch a stepper writes: the start year moves within
   * [defaults.ymin, ymax], the end year within [ymin, defaults.ymax].
   */
  function Step(s: State, d: Defaults, b: Stepper): (patch: Patch)
    ensures b.StartDown? || b.StartUp? ==> patch.ymax.None? && patch.ymin.Some?
    ensures b.EndDown? || b.EndUp? ==> patch.ymin.None? && patch.ymax.Some?
    ensures patch.dmax.None? && patch.art.None? && patch.lab.None?
  {
    match b
    case StartDown => Patch(Some(Clamp(Add(s.ymin, -1), Int(d.ymin), s.ymax)), None, None, None, None)
    case StartUp => Patch(Some(Clamp(Add(s.ymin, 1), Int(d.ymin), s.ymax)), None, None, None, None)
    case EndDown => Patch(None, Some(Clamp(Add(s.ymax, -1), s.ymin, Int(d.ymax))), None, None, None)
    case EndUp => Patch(None, Some(Clamp(Add(s.ymax, 1), s.ymin, Int(d.ymax))), None, None, None)
  }

  /** The year range lies inside the defaults and is not inverted. */
  predicate RangeOk(s: State, d: Defaults)
  {
    s.ymin.Int? && s.ymax.Int? && d.ymin <= s.ymin.n <= s.ymax.n <= d.ymax
  }

  /** The steppers keep a well-formed range well-formed, and move the year they control by at most one. */
  lemma StepKeepsRange(s: State, d: Defaults, b: Stepper)
    requires RangeOk(s, d)
    ensures var r := Merge(s, Step(s, d, b));
            && RangeOk(r, d)
            && -1 <= r.ymin.n - s.ymin.n <= 1 && -1 <= r.ymax.n - s.ymax.n <= 1
            && (b.StartDown? || b.StartUp? ==> r.ymax == s.ymax)
            && (b.EndDown? || b.EndUp? ==> r.ymin == s.ymin)
  {
  }

  /** "+" on the start year reaches the end year and stops there; "-" stops at the default start. */
  lemma StepStopsAtBounds(s: State, d: Defaults)
    requires RangeOk(s, d)
    ensures s.ymin == s.ymax ==> Merge(s, Step(s, d, StartUp)) == s
    ensures s.ymin == Int(d.ymin) ==> Merge(s, Step(s, d, StartDown)) == s
    ensures s.ymin.n < s.ymax.n ==> Merge(s, Step(s, d, StartUp)).ymin == Int(s.ymin.n + 1)
  {
  }

  /** A `NaN` year (from a hand-edited link) stays `NaN` under the steppers. */
  lemma StepKeepsNaN(s: State, d: Defaults, b: Stepper)
    requires s.ymin.NaN?
    ensures Merge(s, Step(s, d, b)).ymin.NaN?
  {
  }

  /** The preset chips: "The 60s", "Early 70s", "Late 70s" and "Full range". */
  function Presets(d: Defaults): (ps: seq<(int, int)>)
    ensures |ps| == 4 && ps[3] == (d.ymin, d.ymax)
  {
    [(1960, 1969), (1970, 1974), (1975, 1979), (d.ymin, d.ymax)]
  }

  /** Every preset is a well-formed range for defaults taken from the data. */
  lemma PresetsInRange(data: seq<Row>, s: State, i: nat)
    requires i < 4
    ensures var d := DefaultsOf(data);
            var pr := Presets(d)[i];
            RangeOk(Merge(s, Patch(Some(Int(pr.0)), Some(Int(pr.1)), None, None, None)), d)
  {
  }

  /**
   * A click on a year bar: no label does nothing; clicking the year that is
   * already the whole range restores the default range; any other click
   * narrows the range to that one year.
   */
  function YearBarClick(s: State, d: Defaults, activeLabel: Option<string>): (r: State)
    ensures activeLabel.None? || activeLabel == Some("") ==> r == s
    ensures r.dmax == s.dmax && r.art == s.art && r.lab == s.lab
  {
    if activeLabel.None? || activeLabel.value == "" then s
    else
      var y := ToNum(ParseInt(activeLabel.value));
      if y.Int? && s.ymin == y && s.ymax == y then Merge(s, Patch(Some(Int(d.ymin)), Some(Int(d.ymax)), None, None, None))
      else Merge(s, Patch(Some(y), Some(y), None, None, None))
  }

  /** Clicking the same year's bar twice selects that year, then restores the defaults. */
  lemma YearBarClickTwice(s: State, d: Defaults, y: int)
    requires !(s.ymin == Int(y) && s.ymax == Int(y))
    ensures var once := YearBarClick(s, d, Some(IntToString(y)));
            && once.ymin == Int(y) && once.ymax == Int(y)
            && YearBarClick(once, d, Some(IntToString(y))).ymin == Int(d.ymin)
            && YearBarClick(once, d, Some(IntToString(y))).ymax == Int(d.ymax)
  {
    ParseIntToString(y);
  }
}
