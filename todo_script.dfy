/** The command-line script todo.rb: its duration formatter, colour
    classes and row filter, the display loop, and the list edits of the
    add, change and done modes.

    The script declares its own `DAY` and `HOUR`, with the same values as
    lib/todo.rb; the model shares those of `TodoLib`, and also its `Task`,
    `Key`, `TruncDiv` and in-place sort, which the add mode repeats inline. */
module TodoScript {
  import opened Text
  import opened TodoLib

  function Abs(n: int): nat { if n < 0 then -n else n }

  /** `r_to_date`: a duration as "due in …" or "past due …", with whole
      days and, under three days, whole hours. */
  function RToDate(duration: int): string {
    var due := if duration <= 0 then "past due " else "due in ";
    var days := TruncDiv(duration, DAY);
    var hours := TruncDiv(duration - days * DAY, HOUR);
    var recent := duration < 3 * DAY;
    var sep := if Abs(days) >= 1 && Abs(hours) >= 1 && recent then " " else "";
    var daysText := if Abs(days) >= 1 then IntToString(days) + " days" else "";
    var hoursText := if Abs(hours) >= 1 && recent then IntToString(hours) + " hours" else "";
    due + daysText + sep + hoursText
  }

  /** The text begins with "past due " exactly for durations up to zero,
      and with "due in " otherwise. */
  lemma RToDatePrefix(duration: int)
    ensures duration <= 0 ==> |RToDate(duration)| >= 9 && RToDate(duration)[..9] == "past due "
    ensures duration > 0 ==> |RToDate(duration)| >= 7 && RToDate(duration)[..7] == "due in "
  {
    var r := RToDate(duration);
    if duration <= 0 {
      assert r == "past due " + r[9..];
    } else {
      assert r == "due in " + r[7..];
    }
  }

  /** A future duration in the calendar's terms: whole days when there is
      at least one, then, under three days, the hours of the last partial
      day when there is at least one, with a space only between the two. */
  lemma RToDateFuture(duration: int)
    requires duration > 0
    ensures var h := duration % DAY / HOUR;
      0 <= h < 24
      && RToDate(duration)
         == "due in "
            + (if duration >= DAY then NatToString(duration / DAY) + " days" else "")
            + (if DAY <= duration < 3 * DAY && h >= 1 then " " else "")
            + (if duration < 3 * DAY && h >= 1 then NatToString(h) + " hours" else "")
  {
  }

  /** Three days or more ahead: whole days only. */
  lemma RToDateFar(duration: int)
    requires duration >= 3 * DAY
    ensures RToDate(duration) == "due in " + NatToString(duration / DAY) + " days"
  {
    RToDateFuture(duration);
  }

  /** Truncating division of a non-positive number: the negated floor
      quotient of its magnitude, with the negated remainder left over. */
  lemma TruncDivNonPositive(a: int, b: int)
    requires a <= 0 && b > 0
    ensures TruncDiv(a, b) == -((-a) / b)
    ensures a - TruncDiv(a, b) * b == -((-a) % b)
  {
  }

  /** An overdue duration: the same parts as a future one, negative, and
      the hours are always shown. */
  lemma RToDatePast(duration: int)
    requires duration <= 0
    ensures var e := -duration;
      var h := e % DAY / HOUR;
      0 <= h < 24
      && RToDate(duration)
         == "past due "
            + (if e >= DAY then "-" + NatToString(e / DAY) + " days" else "")
            + (if e >= DAY && h >= 1 then " " else "")
            + (if h >= 1 then "-" + NatToString(h) + " hours" else "")
  {
    var e := -duration;
    RToDatePastParts(duration);
    assert Abs(TruncDiv(duration, DAY)) >= 1 <==> e >= DAY;
  }

  /** The days and hours `r_to_date` computes for an overdue duration. */
  lemma RToDatePastParts(duration: int)
    requires duration <= 0
    ensures TruncDiv(duration, DAY) == -((-duration) / DAY)
    ensures TruncDiv(duration - TruncDiv(duration, DAY) * DAY, HOUR) == -((-duration) % DAY / HOUR)
  {
    var e := -duration;
    TruncDivNonPositive(duration, DAY);
    TruncDivNonPositive(-(e % DAY), HOUR);
  }

  /** The colour `date_colorize` gives a duration. */
  function DateColor(diff: int): (c: Color)
    ensures c == Red <==> diff < 3 * DAY
    ensures c == Green <==> diff > 7 * DAY
  {
    if diff < 3 * DAY then Red
    else if diff > 7 * DAY then Green
    else Yellow
  }

  /** More time left never gives a more pressing colour. */
  lemma DateColorMonotone(d1: int, d2: int)
    requires d1 <= d2
    ensures Calmness(DateColor(d1)) <= Calmness(DateColor(d2))
  {
  }

  /** One displayed line: the index, the task text and, for a dated task,
      the duration text with its colour. */
  datatype Row = Row(index: nat, text: string, due: Option<(string, Color)>)

  /** The line `full_print_task` and `print_task` build for task `t` at
      index `n`. */
  function RowOf(n: nat, t: Task, now: int): (r: Row)
    ensures r.index == n && r.text == t.text && (r.due.Some? <==> t.due.Some?)
  {
    Row(n, t.text,
        if t.due.Some? then Some((RToDate(t.due.value - now), DateColor(t.due.value - now))) else None)
  }

  /** A dated task's row shows the time left until it is due, as
      `r_to_date` words it, coloured from the same difference: red under
      three days, green over a week, and "past due " exactly once the due
      time has come. */
  lemma RowOfDated(n: nat, t: Task, now: int)
    requires t.due.Some?
    ensures var d := t.due.value - now;
      && RowOf(n, t, now).due.Some?
      && RowOf(n, t, now).due.value.0 == RToDate(d)
      && (RowOf(n, t, now).due.value.1 == Red <==> d < 3 * DAY)
      && (RowOf(n, t, now).due.value.1 == Green <==> d > 7 * DAY)
    ensures var text := RowOf(n, t, now).due.value.0;
      (|text| >= 9 && text[..9] == "past due ") <==> t.due.value <= now
  {
    RToDatePastDue(t.due.value - now);
  }

  /** The text begins with "past due " exactly for durations up to zero. */
  lemma RToDatePastDue(duration: int)
    ensures var text := RToDate(duration);
      (|text| >= 9 && text[..9] == "past due ") <==> duration <= 0
  {
    var text := RToDate(duration);
    RToDatePrefix(duration);
    if duration > 0 {
      assert text[0] == text[..7][0] == 'd';
    }
  }

  /** `print_task`'s two `when` arms: a dated task within five days or
      among the first five, or an undated task among the first five. */
  predicate PrintsRow(n: nat, t: Task, now: int) {
    (t.due.Some? && (t.due.value - now < 5 * DAY || n < 5)) || n < 5
  }

  /** A row is printed exactly for a task due within five days or one of
      the first five. */
  lemma PrintsRowIff(n: nat, t: Task, now: int)
    ensures PrintsRow(n, t, now) <==> (t.due.Some? && t.due.value - now < 5 * DAY) || n < 5
  {
  }

  /** `showall` prints every task. */
  predicate Shown(n: nat, t: Task, now: int, showall: bool) {
    showall || PrintsRow(n, t, now)
  }

  /** The rows the display loop prints, in order. */
  function ShownRows(ts: seq<Task>, now: int, showall: bool): (r: seq<Row>)
    ensures |r| <= |ts|
    ensures forall k :: 0 <= k < |r| ==> r[k].index < |ts|
    decreases |ts|
  {
    if ts == [] then []
    else
      var n := |ts| - 1;
      ShownRows(ts[..n], now, showall) + (if Shown(n, ts[n], now, showall) then [RowOf(n, ts[n], now)] else [])
  }

  /** The display loop of every mode: walks the list with the counter `n`
      and collects the rows it prints. */
  method DisplayRows(ts: seq<Task>, now: int, showall: bool) returns (rows: seq<Row>)
    ensures rows == ShownRows(ts, now, showall)
  {
    rows := [];
    var n := 0;
    while n < |ts|
      invariant 0 <= n <= |ts|
      invariant rows == ShownRows(ts[..n], now, showall)
    {
      assert ts[..n + 1][..n] == ts[..n];
      if Shown(n, ts[n], now, showall) {
        rows := rows + [RowOf(n, ts[n], now)];
      }
      n := n + 1;
    }
    assert ts[..n] == ts;
  }

  /** Each of `rows` is the row of a shown task of `ts`. */
  predicate RowsFaithful(ts: seq<Task>, rows: seq<Row>, now: int, showall: bool) {
    forall k :: 0 <= k < |rows| ==>
      rows[k].index < |ts| && Shown(rows[k].index, ts[rows[k].index], now, showall)
      && rows[k] == RowOf(rows[k].index, ts[rows[k].index], now)
  }

  predicate IncreasingIndices(rows: seq<Row>) {
    forall k, l :: 0 <= k < l < |rows| ==> rows[k].index < rows[l].index
  }

  /** Every printed row is the row of a shown task, and the rows come in
      increasing index order. */
  lemma {:induction false} ShownRowsSound(ts: seq<Task>, now: int, showall: bool)
    ensures RowsFaithful(ts, ShownRows(ts, now, showall), now, showall)
    ensures IncreasingIndices(ShownRows(ts, now, showall))
    decreases |ts|
  {
    if ts != [] {
      var n := |ts| - 1;
      var front := ts[..n];
      ShownRowsSound(front, now, showall);
      var r0 := ShownRows(front, now, showall);
      var r := ShownRows(ts, now, showall);
      var last := if Shown(n, ts[n], now, showall) then [RowOf(n, ts[n], now)] else [];
      assert r == r0 + last;
      forall k | 0 <= k < |r0|
        ensures r[k] == r0[k] && r0[k].index < n && ts[r0[k].index] == front[r0[k].index]
      {
      }
      if last != [] {
        assert r[|r0|] == RowOf(n, ts[n], now);
      }
    }
  }

  /** Every shown task has its row among the printed ones. */
  lemma {:induction false} ShownRowsComplete(ts: seq<Task>, now: int, showall: bool, i: nat)
    requires i < |ts| && Shown(i, ts[i], now, showall)
    ensures exists k :: 0 <= k < |ShownRows(ts, now, showall)| && ShownRows(ts, now, showall)[k].index == i
    decreases |ts|
  {
    var n := |ts| - 1;
    var r := ShownRows(ts, now, showall);
    if i < n {
      assert ts[..n][i] == ts[i];
      ShownRowsComplete(ts[..n], now, showall, i);
      var r0 := ShownRows(ts[..n], now, showall);
      var k :| 0 <= k < |r0| && r0[k].index == i;
      assert r[k] == r0[k];
    } else {
      assert r[|r| - 1].index == i;
    }
  }

  /** Without `showall` the first five tasks are always printed, so the
      rows begin with them. */
  lemma {:induction false} ShownRowsFirstFive(ts: seq<Task>, now: int, showall: bool, i: nat)
    requires i < |ts| && i < 5
    ensures |ShownRows(ts, now, showall)| > i
    ensures ShownRows(ts, now, showall)[i] == RowOf(i, ts[i], now)
    decreases |ts|
  {
    var n := |ts| - 1;
    if i < n {
      ShownRowsFirstFive(ts[..n], now, showall, i);
      assert ts[..n][i] == ts[i];
    } else {
      FirstFiveCount(ts[..n], now, showall);
    }
  }

  /** Each of the first five tasks adds a row. */
  lemma {:induction false} FirstFiveCount(ts: seq<Task>, now: int, showall: bool)
    requires |ts| <= 5
    ensures |ShownRows(ts, now, showall)| == |ts|
    decreases |ts|
  {
    if ts != [] {
      FirstFiveCount(ts[..|ts| - 1], now, showall);
    }
  }

  /** With `showall` every task is printed, in order. */
  lemma {:induction false} ShowAllRows(ts: seq<Task>, now: int)
    ensures |ShownRows(ts, now, true)| == |ts|
    ensures forall i :: 0 <= i < |ts| ==> ShownRows(ts, now, true)[i] == RowOf(i, ts[i], now)
    decreases |ts|
  {
    if ts != [] {
      var n := |ts| - 1;
      ShowAllRows(ts[..n], now);
      forall i | 0 <= i < n ensures ts[..n][i] == ts[i] { }
    }
  }

  /** Ruby's reading of an index into a list of `n` entries: a negative
      index counts from the end. */
  function ResolveIndex(i: int, n: nat): (r: Option<nat>)
    ensures r.Some? <==> -(n as int) <= i < n
    ensures r.Some? ==> r.value < n && (r.value == i || r.value == i + n)
  {
    if 0 <= i < n then Some(i)
    else if -(n as int) <= i < 0 then Some(i + n)
    else None
  }

  /** `delete_if.with_index` with `done.include?(index)`: the entries whose
      index is not listed, in order. */
  function Survivors(ts: seq<Task>, done: seq<int>): (r: seq<Task>)
    ensures |r| <= |ts|
    decreases |ts|
  {
    if ts == [] then []
    else
      var n := |ts| - 1;
      Survivors(ts[..n], done) + (if n in done then [] else [ts[n]])
  }

  /** The indices below `n` that `done` does not list, in increasing
      order. */
  function Unlisted(n: nat, done: seq<int>): (r: seq<nat>)
    ensures forall k :: 0 <= k < |r| ==> r[k] < n && r[k] !in done
    ensures forall k, l :: 0 <= k < l < |r| ==> r[k] < r[l]
    ensures forall i :: 0 <= i < n && i !in done ==> i in r
  {
    if n == 0 then []
    else Unlisted(n - 1, done) + (if n - 1 in done then [] else [n - 1])
  }

  /** Done mode keeps exactly the unlisted entries, in their order. */
  lemma {:induction false} SurvivorsAreUnlisted(ts: seq<Task>, done: seq<int>)
    ensures var idx := Unlisted(|ts|, done);
      |Survivors(ts, done)| == |idx|
      && forall k :: 0 <= k < |idx| ==> Survivors(ts, done)[k] == ts[idx[k]]
    decreases |ts|
  {
    if ts != [] {
      var n := |ts| - 1;
      SurvivorsAreUnlisted(ts[..n], done);
      var s0 := Survivors(ts[..n], done);
      var idx0 := Unlisted(n, done);
      var idx := Unlisted(|ts|, done);
      assert Survivors(ts, done) == s0 + (if n in done then [] else [ts[n]]);
      assert idx == idx0 + (if n in done then [] else [n]);
      forall k | 0 <= k < |idx| ensures Survivors(ts, done)[k] == ts[idx[k]] {
        if k < |idx0| {
          assert s0[k] == ts[..n][idx0[k]];
        }
      }
    }
  }

  /** When no index of the list is listed, done mode changes nothing. */
  lemma {:induction false} SurvivorsNoneListed(ts: seq<Task>, done: seq<int>)
    requires forall i :: 0 <= i < |ts| ==> i !in done
    ensures Survivors(ts, done) == ts
    decreases |ts|
  {
    if ts != [] {
      var n := |ts| - 1;
      SurvivorsNoneListed(ts[..n], done);
      assert ts[..n] + [ts[n]] == ts;
    }
  }

  /** The stored task list, edited in place by the add, change and done
      modes. */
  class TaskList {
    var tasks: seq<Task>

    constructor (ts: seq<Task>)
      ensures tasks == ts
    {
      tasks := ts;
    }

    /** Add mode: the new task goes in front, then the list is sorted by
        due date with undated tasks keyed at the sentinel. */
    method Add(text: string, due: Option<int>)
      modifies this
      ensures SortedByKey(tasks)
      ensures multiset(tasks) == multiset{Task(text, due)} + old(multiset(tasks))
    {
      var all := [Task(text, due)] + tasks;
      var a := new Task[|all|](i requires 0 <= i < |all| => all[i]);
      assert a[..] == all;
      SortTasklist(a);
      tasks := a[..];
    }

    /** Change mode: the entry at index `i` (negative counts from the end)
        gets the new deadline. Ruby raises on an index outside the list,
        before anything is stored; the model then reports `false` and
        leaves the list as it was. The list is not sorted again. */
    method Change(i: int, due: Option<int>) returns (ok: bool)
      modifies this
      ensures ok <==> -|old(tasks)| <= i < |old(tasks)|
      ensures ok ==> var k := ResolveIndex(i, |old(tasks)|).value;
        tasks == old(tasks)[k := Task(old(tasks)[k].text, due)]
      ensures !ok ==> tasks == old(tasks)
    {
      var k := ResolveIndex(i, |tasks|);
      if k.None? {
        return false;
      }
      tasks := tasks[k.value := Task(tasks[k.value].text, due)];
      ok := true;
    }

    /** Done mode: removes the entries whose indices are listed. */
    method MarkDone(done: seq<int>)
      modifies this
      ensures tasks == Survivors(old(tasks), done)
    {
      var kept := [];
      var i := 0;
      while i < |tasks|
        invariant 0 <= i <= |tasks|
        invariant kept == Survivors(tasks[..i], done)
      {
        assert tasks[..i + 1][..i] == tasks[..i];
        if i !in done {
          kept := kept + [tasks[i]];
        }
        i := i + 1;
      }
      assert tasks[..i] == tasks;
      tasks := kept;
    }
  }
}
