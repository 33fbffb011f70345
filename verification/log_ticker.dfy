/**
 * The scrolling status log on the home page: a new message every few
 * seconds (never the same text twice in a row), a window that keeps only
 * the rows that fit, and a typewriter effect that reveals the newest row one
 * character per tick. Timers, clocks and `Math.random` are parameters: the
 * random draws are given as a sequence of indices, and row ids and
 * timestamps are supplied by the caller.
 */
module LogTicker {
  import opened Wrappers

  datatype Level = Info | Warn | Error

  datatype Message = Message(level: Level, text: string)

  const AllMessages: seq<Message> := [
    Message(Info, "Monitoring system performance... All systems nominal"),
    Message(Info, "PowerShell script execution completed successfully"),
    Message(Info, "License server health check: PASSED"),
    Message(Info, "AI automation routine: Processing workload optimization"),
    Message(Info, "Network connectivity verified across all nodes"),
    Message(Info, "Documentation update: SOPs synchronized"),
    Message(Warn, "Mobile Devices must triple tap for Konami Code"),
    Message(Info, "Backup verification: All data integrity checks passed"),
    Message(Info, "Konami Code: READY"),
    Message(Info, "Security audit scan completed: No anomalies detected"),
    Message(Info, "Patch baseline applied: All endpoints up to date"),
    Message(Info, "VPN tunnel secured. Productivity restored."),
    Message(Warn, "Diet Mt Dew consumption levels: CRITICAL"),
    Message(Warn, "Cat on keyboard: Input stream compromised"),
    Message(Info, "Mechanical keyboard detected: +10 sysadmin charisma"),
    Message(Info, "Vinyl record spinning: Dev environment stabilized"),
    Message(Info, "Hint: \U{2191} \U{2191} \U{2193} \U{2193} \U{2190} \U{2192} \U{2190} \U{2192} B A"),
    Message(Info, "Operator tip: Some codes are classics for a reason"),
    Message(Error, "Disk quota exceeded: Clean up required!")]

  /* ---------------- picking the next message ---------------- */

  /** A draw `Math.floor(Math.random() * msgs.length)`: an index into the list. */
  predicate ValidDraws(msgs: seq<Message>, draws: seq<nat>)
  {
    forall j :: 0 <= j < |draws| ==> draws[j] < |msgs|
  }

  /** The message drawn is acceptable when its text differs from the previous one. */
  predicate Fresh(m: Message, prevText: Option<string>)
  {
    prevText.None? || m.text != prevText.value
  }

  /**
   * `pickRandomMessage(prevText)` over the list `msgs`, given its random
   * draws: the only message of a one-message list, otherwise the first drawn
   * message whose text differs from `prevText`. `None` means the draws ran
   * out before one was accepted (the source keeps drawing).
   */
  function PickMessage(msgs: seq<Message>, prevText: Option<string>, draws: seq<nat>): (r: Option<Message>)
    requires |msgs| >= 1 && ValidDraws(msgs, draws)
    ensures r.Some? ==> r.value in msgs && (|msgs| == 1 || Fresh(r.value, prevText))
    ensures r.None? <==> |msgs| != 1 && forall j :: 0 <= j < |draws| ==> !Fresh(msgs[draws[j]], prevText)
  {
    if |msgs| == 1 then Some(msgs[0])
    else if |draws| == 0 then None
    else if Fresh(msgs[draws[0]], prevText) then Some(msgs[draws[0]])
    else PickMessage(msgs, prevText, draws[1..])
  }

  /** With several messages, the pick is the first acceptable draw: every earlier draw repeated the previous text. */
  lemma {:induction false} PickMessageFirstFresh(msgs: seq<Message>, prevText: Option<string>, draws: seq<nat>, j: nat)
    requires |msgs| > 1 && ValidDraws(msgs, draws)
    requires j < |draws| && Fresh(msgs[draws[j]], prevText)
    requires forall i :: 0 <= i < j ==> !Fresh(msgs[draws[i]], prevText)
    ensures PickMessage(msgs, prevText, draws) == Some(msgs[draws[j]])
    decreases j
  {
    if j > 0 {
      assert forall i :: 0 <= i < j - 1 ==> draws[1..][i] == draws[i + 1];
      PickMessageFirstFresh(msgs, prevText, draws[1..], j - 1);
    }
  }

  /** No two of the ticker's messages share a text, so only a draw of the previous message is ever rejected. */
  lemma MessageTextsDistinct()
    ensures forall i, j :: 0 <= i < j < |AllMessages| ==> AllMessages[i].text != AllMessages[j].text
  {
  }

  /** The first message (no previous text) is the first draw. */
  lemma PickFirstMessage(msgs: seq<Message>, draws: seq<nat>)
    requires |msgs| > 1 && ValidDraws(msgs, draws) && |draws| > 0
    ensures PickMessage(msgs, None, draws) == Some(msgs[draws[0]])
  {
  }

  /* ---------------- rows and the window ---------------- */

  /** A row: its id, timestamp, message, and the part typed so far. */
  datatype Row = Row(id: nat, ts: string, level: Level, text: string, typed: string)

  /** A fresh row starts with nothing typed. */
  function NewRow(id: nat, ts: string, m: Message): (r: Row)
    ensures r.text == m.text && r.level == m.level && r.typed == ""
  {
    Row(id, ts, m.level, m.text, "")
  }

  /**
   * `visibleRows`: the container height over the line height, at least 1.
   * A line height that is missing or not positive falls back to the
   * template row's height, or 20 when that is 0.
   */
  function VisibleRows(containerH: real, lineHeight: Option<real>, rectHeight: real): (n: int)
    requires containerH >= 0.0
    ensures n >= 1
  {
    var lh := if lineHeight.Some? && lineHeight.value > 0.0 then lineHeight.value
              else if rectHeight != 0.0 then rectHeight else 20.0;
    var q := (containerH / lh).Floor;
    if q > 1 then q else 1
  }

  /** More than one row is shown only when that many line heights fit in the container. */
  lemma VisibleRowsFit(containerH: real, lh: real)
    requires containerH >= 0.0 && lh > 0.0
    ensures var n := VisibleRows(containerH, Some(lh), 0.0);
            n > 1 ==> n as real * lh <= containerH
    ensures var n := VisibleRows(containerH, Some(lh), 0.0);
            containerH < (n + 1) as real * lh
  {
    var n := VisibleRows(containerH, Some(lh), 0.0);
    var x := containerH / lh;
    assert x * lh == containerH;
    if n > 1 {
      assert n as real <= x;
      MulLe(n as real, x, lh);
    }
    assert x < (x.Floor + 1) as real;
    assert x < (n + 1) as real;
    MulLt(x, (n + 1) as real, lh);
    assert containerH < (n + 1) as real * lh;
  }

  lemma MulLe(a: real, b: real, c: real)
    requires a <= b && c > 0.0
    ensures a * c <= b * c
  {
  }

  lemma MulLt(a: real, b: real, c: real)
    requires a < b && c > 0.0
    ensures a * c < b * c
  {
  }

  /** `s.slice(-n)` for `n >= 1`: the last `n` elements, or all of them. */
  function LastN<T>(s: seq<T>, n: nat): (r: seq<T>)
    requires n >= 1
    ensures |r| == if |s| < n then |s| else n
    ensures r == s[|s| - |r|..]
  {
    if |s| <= n then s else s[|s| - n..]
  }

  /** `[...prev, next].slice(-visibleRows)`: the newest row is last, and at most `visibleRows` are kept. */
  function Append(prev: seq<Row>, next: Row, visibleRows: nat): (r: seq<Row>)
    requires visibleRows >= 1
    ensures |r| >= 1 && r[|r| - 1] == next
    ensures |r| <= visibleRows && |r| <= |prev| + 1
  {
    LastN(prev + [next], visibleRows)
  }

  /** Apart from the new row, the log is the newest rows it held before. */
  lemma AppendKeepsNewest(prev: seq<Row>, next: Row, visibleRows: nat)
    requires visibleRows >= 1
    ensures var r := Append(prev, next, visibleRows);
      r[..|r| - 1] == prev[|prev| + 1 - |r|..]
  {
    var all := prev + [next];
    var r := LastN(all, visibleRows);
    assert r[..|r| - 1] == all[|all| - |r|..|all| - 1];
  }

  /** Appending rows one by one to an empty log. */
  function AppendAll(rows: seq<Row>, visibleRows: nat): seq<Row>
    requires visibleRows >= 1
  {
    if |rows| == 0 then [] else Append(AppendAll(rows[..|rows| - 1], visibleRows), rows[|rows| - 1], visibleRows)
  }

  /** With a fixed window, the log is always the last `visibleRows` rows ever appended. */
  lemma {:induction false} AppendAllWindow(rows: seq<Row>, visibleRows: nat)
    requires visibleRows >= 1
    ensures AppendAll(rows, visibleRows) == LastN(rows, visibleRows)
    decreases |rows|
  {
    if |rows| > 0 {
      var p, last := rows[..|rows| - 1], rows[|rows| - 1];
      assert p + [last] == rows;
      AppendAllWindow(p, visibleRows);
      AppendIsLastN(LastN(p, visibleRows), last, visibleRows);
      LastNAppend(p, last, visibleRows);
    }
  }

  lemma AppendIsLastN(w: seq<Row>, x: Row, n: nat)
    requires n >= 1
    ensures Append(w, x, n) == LastN(w + [x], n)
  {
  }

  /** Keeping the last `n` before appending does not change the last `n` after it. */
  lemma LastNAppend<T>(p: seq<T>, x: T, n: nat)
    requires n >= 1
    ensures LastN(LastN(p, n) + [x], n) == LastN(p + [x], n)
  {
    if |p| >= n {
      var w := p[|p| - n..];
      var a, b := (w + [x])[1..], (p + [x])[|p| + 1 - n..];
      assert |a| == |b| == n;
      forall k | 0 <= k < n ensures a[k] == b[k] {
        if k < n - 1 {
          assert a[k] == w[k + 1] == p[|p| - n + k + 1];
        }
      }
    }
  }

  /* ---------------- the typewriter ---------------- */

  /** `prev.findIndex(l => l.id === typingId)`. */
  function FindRow(rows: seq<Row>, id: nat): (r: Option<nat>)
    ensures r.Some? ==> r.value < |rows| && rows[r.value].id == id
    ensures r.Some? ==> forall j :: 0 <= j < r.value ==> rows[j].id != id
    ensures r.None? ==> forall j :: 0 <= j < |rows| ==> rows[j].id != id
  {
    if |rows| == 0 then None
    else if rows[0].id == id then Some(0)
    else match FindRow(rows[1..], id)
      case None => None
      case Some(j) => Some(j + 1)
  }

  /** Every row's typed part is a prefix of its text. */
  predicate WellTyped(rows: seq<Row>)
  {
    forall j :: 0 <= j < |rows| ==> rows[j].typed <= rows[j].text
  }

  /** One row after a tick: one more character of its text, capped at the whole text. */
  function TypeOne(item: Row): (r: Row)
    ensures r.typed <= r.text
    ensures r == item.(typed := r.typed)
    ensures |r.typed| == if |item.typed| < |item.text| then |item.typed| + 1 else |item.text|
  {
    var nextLen := if |item.text| < |item.typed| + 1 then |item.text| else |item.typed| + 1;
    item.(typed := item.text[..nextLen])
  }

  /**
   * One typewriter tick for row `typingId`: the new rows, and whether the
   * interval stops (the row is fully typed). A row that has scrolled out
   * leaves the rows as they were and the interval running.
   */
  function Tick(rows: seq<Row>, typingId: nat): (r: (seq<Row>, bool))
    ensures |r.0| == |rows|
    ensures FindRow(rows, typingId).None? ==> r == (rows, false)
    ensures FindRow(rows, typingId).Some? ==>
              var k := FindRow(rows, typingId).value;
              && r.0 == rows[k := TypeOne(rows[k])]
              && (r.1 <==> r.0[k].typed == r.0[k].text)
    ensures WellTyped(rows) ==> WellTyped(r.0)
  {
    match FindRow(rows, typingId)
    case None => (rows, false)
    case Some(k) =>
      var item := TypeOne(rows[k]);
      (rows[k := item], |item.typed| == |item.text|)
  }

  /** Ticking a row that is still typing reveals exactly one more character. */
  lemma TickProgress(rows: seq<Row>, typingId: nat)
    requires WellTyped(rows)
    requires FindRow(rows, typingId).Some?
    ensures var k := FindRow(rows, typingId).value;
            |rows[k].typed| < |rows[k].text| ==>
              Tick(rows, typingId).0[k].typed == rows[k].text[..|rows[k].typed| + 1]
  {
  }

  /** Ticking `n` times. */
  function TickN(rows: seq<Row>, typingId: nat, n: nat): seq<Row>
    decreases n
  {
    if n == 0 then rows else TickN(Tick(rows, typingId).0, typingId, n - 1)
  }

  /** After as many ticks as characters remain, the row is fully typed and the interval stops. */
  lemma {:induction false} TickCompletes(rows: seq<Row>, typingId: nat, n: nat)
    requires WellTyped(rows)
    requires FindRow(rows, typingId).Some?
    requires n >= 1
    requires n == |rows[FindRow(rows, typingId).value].text| - |rows[FindRow(rows, typingId).value].typed|
    ensures var k := FindRow(rows, typingId).value;
            var last := TickN(rows, typingId, n - 1);
            && FindRow(last, typingId) == Some(k)
            && Tick(last, typingId).1
            && Tick(last, typingId).0[k].typed == rows[k].text
            && Tick(last, typingId).0[k].text == rows[k].text
    decreases n
  {
    var k := FindRow(rows, typingId).value;
    assert rows[k].typed <= rows[k].text;
    var next := Tick(rows, typingId).0;
    SameIds(rows, next, typingId, k);
    if n > 1 {
      TickCompletes(next, typingId, n - 1);
    }
  }

  /** A tick keeps every id, so the typing row is found at the same place. */
  lemma SameIds(rows: seq<Row>, next: seq<Row>, typingId: nat, k: nat)
    requires FindRow(rows, typingId) == Some(k)
    requires next == Tick(rows, typingId).0
    ensures FindRow(next, typingId) == Some(k)
  {
    FindRowSameIds(rows, next, typingId);
  }

  lemma {:induction false} FindRowSameIds(a: seq<Row>, b: seq<Row>, id: nat)
    requires |a| == |b| && forall j :: 0 <= j < |a| ==> a[j].id == b[j].id
    ensures FindRow(a, id) == FindRow(b, id)
    decreases |a|
  {
    if |a| > 0 {
      FindRowSameIds(a[1..], b[1..], id);
    }
  }

  /** `isTyping`: the typing row, while part of its text is still hidden. */
  predicate IsTyping(row: Row, typingId: Option<nat>)
  {
    typingId == Some(row.id) && |row.typed| < |row.text|
  }

  /** The text a row shows: the typed part while typing, the whole text otherwise. */
  function Shown(row: Row, typingId: Option<nat>): (s: string)
    requires row.typed <= row.text
    ensures s <= row.text
    ensures !IsTyping(row, typingId) ==> s == row.text
    ensures IsTyping(row, typingId) ==> |s| < |row.text|
  {
    if IsTyping(row, typingId) then row.typed else row.text
  }

  /**
   * The typing row shows the cursor until its last character is typed: it is
   * typing before the ticks, and after them it is not and shows its whole text.
   */
  lemma TypingEnds(rows: seq<Row>, typingId: nat, n: nat)
    requires WellTyped(rows)
    requires FindRow(rows, typingId).Some?
    requires n >= 1
    requires n == |rows[FindRow(rows, typingId).value].text| - |rows[FindRow(rows, typingId).value].typed|
    ensures var k := FindRow(rows, typingId).value;
            var done := Tick(TickN(rows, typingId, n - 1), typingId).0;
            && IsTyping(rows[k], Some(typingId))
            && k < |done| && !IsTyping(done[k], Some(typingId))
            && done[k].typed <= done[k].text && Shown(done[k], Some(typingId)) == rows[k].text
  {
    TickCompletes(rows, typingId, n);
  }
}
