/** The task-list helpers of lib/todo.rb.

    A task is the pair `[text, due]` of the Ruby program; `due` is a point
    in time, here whole seconds since the epoch, or absent. The clock
    (`Time.now`) is the parameter `now`, and every duration is a whole
    number of seconds. */
module TodoLib {
  import opened Text

  const DAY: int := 86400
  const HOUR: int := 3600
  /** Days before a task counts as urgent. */
  const URGENT_DAYS: int := 2
  /** Days before a task counts as due soon. */
  const NORMAL_DAYS: int := 5
  const URGENT_THRESHOLD: int := DAY * URGENT_DAYS
  const NORMAL_THRESHOLD: int := DAY * NORMAL_DAYS
  /** How many tasks the short view aims to show. */
  const TASKLIST_LENGTH: nat := 4

  /** 2099-02-03T04:05:06+07:00, the sort key of a task without a date. */
  const SENTINEL: int := 4073749506

  datatype Task = Task(text: string, due: Option<int>)

  /** `sort_by!`'s key: the due time, or the sentinel when there is none. */
  function Key(t: Task): int {
    if t.due.Some? then t.due.value else SENTINEL
  }

  predicate SortedByKey(s: seq<Task>) {
    forall p, q :: 0 <= p < q < |s| ==> Key(s[p]) <= Key(s[q])
  }

  /** The keys of `a[lo..hi]` never decrease. */
  predicate SortedRange(a: array<Task>, lo: int, hi: int)
    reads a
  {
    forall p, q :: lo <= p < q < hi && 0 <= p && q < a.Length ==> Key(a[p]) <= Key(a[q])
  }

  /** Midway through inserting `a[i]`: it sits at `j`, `a[..j]` and
      `a[j..i + 1]` are sorted, and everything left of `j` is at most
      everything right of it. */
  predicate Inserting(a: array<Task>, j: int, i: int)
    reads a
  {
    0 <= j <= i < a.Length && SortedRange(a, 0, j) && SortedRange(a, j, i + 1)
    && forall p, q :: 0 <= p < j < q <= i ==> Key(a[p]) <= Key(a[q])
  }

  /** Exchanges `a[j - 1]` and `a[j]` when they are out of order, moving
      the inserted task one step down. */
  method SwapDown(a: array<Task>, j: int, i: int)
    requires Inserting(a, j, i) && 0 < j && Key(a[j - 1]) > Key(a[j])
    modifies a
    ensures Inserting(a, j - 1, i)
    ensures multiset(a[..]) == old(multiset(a[..]))
  {
    a[j - 1], a[j] := a[j], a[j - 1];
  }

  /** Once the inserted task is in order with its left neighbour, the
      whole prefix is sorted. */
  lemma InsertionDone(a: array<Task>, j: int, i: int)
    requires Inserting(a, j, i) && (j == 0 || Key(a[j - 1]) <= Key(a[j]))
    ensures SortedRange(a, 0, i + 1)
  {
    forall p, q | 0 <= p < q < i + 1 ensures Key(a[p]) <= Key(a[q]) {
      if p < j && q == j {
        assert Key(a[p]) <= Key(a[j - 1]);
      }
    }
  }

  /** One pass of insertion: moves `a[i]` down into the sorted `a[..i]`. */
  method InsertDown(a: array<Task>, i: int)
    requires 0 <= i < a.Length && SortedRange(a, 0, i)
    modifies a
    ensures SortedRange(a, 0, i + 1)
    ensures multiset(a[..]) == old(multiset(a[..]))
  {
    var j := i;
    while 0 < j && Key(a[j - 1]) > Key(a[j])
      invariant Inserting(a, j, i)
      invariant multiset(a[..]) == old(multiset(a[..]))
    {
      SwapDown(a, j, i);
      j := j - 1;
    }
    InsertionDone(a, j, i);
  }

  /** `sort_tasklist`: sorts the caller's list in place by `Key`. Ruby's
      `sort_by!` promises no stability, so neither does this contract. */
  method SortTasklist(a: array<Task>)
    modifies a
    ensures SortedByKey(a[..])
    ensures multiset(a[..]) == old(multiset(a[..]))
  {
    var i := 0;
    while i < a.Length
      invariant 0 <= i <= a.Length
      invariant SortedRange(a, 0, i)
      invariant multiset(a[..]) == old(multiset(a[..]))
    {
      InsertDown(a, i);
      i := i + 1;
    }
  }

  /** In a sorted list a task without a date comes after every task due
      before the sentinel. */
  lemma UndatedAfterEarlier(s: seq<Task>, p: nat, q: nat)
    requires SortedByKey(s) && p < |s| && q < |s|
    requires s[p].due.None? && s[q].due.Some? && s[q].due.value < SENTINEL
    ensures q < p
  {
  }

  /** The last task of a sorted list has the largest key. */
  lemma LastIsLargest(s: seq<Task>, x: Task)
    requires SortedByKey(s) && x in multiset(s)
    ensures Key(x) <= Key(s[|s| - 1])
  {
    var i :| 0 <= i < |s| && s[i] == x;
    if i < |s| - 1 {
      assert Key(s[i]) <= Key(s[|s| - 1]);
    }
  }

  /** Removing one task keeps a sorted list sorted. */
  lemma RemoveSorted(s: seq<Task>, k: nat)
    requires SortedByKey(s) && k < |s|
    ensures SortedByKey(s[..k] + s[k + 1..])
  {
    var r := s[..k] + s[k + 1..];
    forall p, q | 0 <= p < q < |r| ensures Key(r[p]) <= Key(r[q]) {
      var p0 := if p < k then p else p + 1;
      var q0 := if q < k then q else q + 1;
      assert r[p] == s[p0] && r[q] == s[q0];
    }
  }

  /** Removing one task removes one copy of it from the multiset. */
  lemma RemoveOne(s: seq<Task>, k: nat)
    requires k < |s|
    ensures multiset(s[..k] + s[k + 1..]) == multiset(s) - multiset{s[k]}
  {
    assert s == s[..k] + [s[k]] + s[k + 1..];
  }

  /** Putting back the removed largest task at `ps` restores the key
      agreement at every index. */
  lemma ReinsertLargest(s: seq<Task>, u: seq<Task>, ps: nat)
    requires SortedByKey(s) && |s| == |u| && ps < |s|
    requires Key(s[ps]) == Key(s[|s| - 1]) == Key(u[|u| - 1])
    requires forall i :: 0 <= i < |s| - 1 ==> Key((s[..ps] + s[ps + 1..])[i]) == Key(u[i])
    ensures forall i :: 0 <= i < |s| ==> Key(s[i]) == Key(u[i])
  {
    var s' := s[..ps] + s[ps + 1..];
    forall i | 0 <= i < |s| - 1 ensures Key(s[i]) == Key(u[i]) {
      if i < ps {
        assert s'[i] == s[i];
      } else {
        // From `ps` on, every key of `s` is the largest one.
        assert s'[i] == s[i + 1];
        assert Key(s[ps]) <= Key(s[i]) <= Key(s[i + 1]) <= Key(s[|s| - 1]);
      }
    }
  }

  /** The last task of `u` has a twin in `s` whose key is the largest of
      both lists. */
  lemma FindTwin(s: seq<Task>, u: seq<Task>) returns (ps: nat)
    requires SortedByKey(s) && SortedByKey(u) && multiset(s) == multiset(u) && |s| == |u| > 0
    ensures ps < |s| && s[ps] == u[|u| - 1]
    ensures Key(s[ps]) == Key(s[|s| - 1]) == Key(u[|u| - 1])
  {
    var n := |s| - 1;
    assert s[n] in multiset(u);
    assert u[n] in multiset(s);
    LastIsLargest(u, s[n]);
    LastIsLargest(s, u[n]);
    ps :| 0 <= ps < |s| && s[ps] == u[n];
  }

  /** Dropping the twins leaves sorted lists with equal multisets. */
  lemma DropTwins(s: seq<Task>, u: seq<Task>, ps: nat)
    requires SortedByKey(s) && SortedByKey(u) && multiset(s) == multiset(u)
    requires |s| == |u| > 0 && ps < |s| && s[ps] == u[|u| - 1]
    ensures var s' := s[..ps] + s[ps + 1..];
      SortedByKey(s') && SortedByKey(u[..|u| - 1]) && multiset(s') == multiset(u[..|u| - 1])
  {
    var n := |u| - 1;
    RemoveOne(s, ps);
    RemoveOne(u, n);
    assert u[..n] + u[n + 1..] == u[..n];
    RemoveSorted(s, ps);
    RemoveSorted(u, n);
  }

  /** Two sorted arrangements of the same tasks have the same keys in the
      same places: sorting decides everything but the order of ties. */
  lemma {:induction false} SortedKeysUnique(s: seq<Task>, u: seq<Task>)
    requires SortedByKey(s) && SortedByKey(u) && multiset(s) == multiset(u)
    ensures |s| == |u|
    ensures forall i :: 0 <= i < |s| ==> Key(s[i]) == Key(u[i])
    decreases |s|
  {
    assert |s| == |multiset(s)| == |multiset(u)| == |u|;
    if |s| > 0 {
      var ps := FindTwin(s, u);
      DropTwins(s, u, ps);
      SortedKeysUnique(s[..ps] + s[ps + 1..], u[..|u| - 1]);
      ReinsertLargest(s, u, ps);
    }
  }

  /** The shortlist condition: a date, and due within `NORMAL_THRESHOLD`. */
  predicate DueSoon(t: Task, now: int) {
    t.due.Some? && t.due.value - now < NORMAL_THRESHOLD
  }

  /** `tasklist.select { … }` with the due-soon block. */
  function Shortlist(ts: seq<Task>, now: int): (r: seq<Task>)
    ensures |r| <= |ts|
    ensures forall t :: t in r ==> t in ts && DueSoon(t, now)
  {
    if ts == [] then []
    else (if DueSoon(ts[0], now) then [ts[0]] else []) + Shortlist(ts[1..], now)
  }

  /** Selecting from a concatenation selects from each part in turn: the
      shortlist keeps the list's order. */
  lemma {:induction false} ShortlistAppend(a: seq<Task>, b: seq<Task>, now: int)
    ensures Shortlist(a + b, now) == Shortlist(a, now) + Shortlist(b, now)
  {
    if a != [] {
      assert (a + b)[0] == a[0] && (a + b)[1..] == a[1..] + b;
      ShortlistAppend(a[1..], b, now);
    } else {
      assert a + b == b;
    }
  }

  /** Every due-soon task of the list is on the shortlist. */
  lemma {:induction false} ShortlistComplete(ts: seq<Task>, now: int, t: Task)
    requires t in ts && DueSoon(t, now)
    ensures t in Shortlist(ts, now)
  {
    if ts[0] != t {
      ShortlistComplete(ts[1..], now, t);
    }
  }

  function Min(a: int, b: int): int { if a < b then a else b }

  /** `limit_to_show`. The range `tasklist[0..TASKLIST_LENGTH]` is
      inclusive, so the fallback is a prefix of up to five tasks. */
  function LimitToShow(ts: seq<Task>, showall: bool, now: int): (r: seq<Task>)
    ensures showall ==> r == ts
  {
    if showall then ts
    else
      var shortlist := Shortlist(ts, now);
      if |shortlist| < TASKLIST_LENGTH then ts[..Min(|ts|, TASKLIST_LENGTH + 1)]
      else shortlist
  }

  /** Without `showall`, the view is either the first five tasks or only
      due-soon tasks, and it never shows fewer than four tasks unless the
      list itself is shorter. */
  lemma LimitToShowShape(ts: seq<Task>, now: int)
    ensures var r := LimitToShow(ts, false, now);
      (r == ts[..|r|] && |r| <= TASKLIST_LENGTH + 1)
      || (|r| >= TASKLIST_LENGTH && forall t :: t in r ==> t in ts && DueSoon(t, now))
    ensures |LimitToShow(ts, false, now)| >= Min(|ts|, TASKLIST_LENGTH)
  {
  }

  /** Which view is chosen: fewer than four due-soon tasks give the first
      five tasks (the range `0..TASKLIST_LENGTH` includes both ends), and
      otherwise the view is the shortlist itself. */
  lemma LimitToShowFallback(ts: seq<Task>, now: int)
    ensures |Shortlist(ts, now)| < TASKLIST_LENGTH ==> LimitToShow(ts, false, now) == ts[..Min(|ts|, 5)]
    ensures |Shortlist(ts, now)| >= TASKLIST_LENGTH ==> LimitToShow(ts, false, now) == Shortlist(ts, now)
  {
  }

  /** When the shortlist is long enough, the view holds exactly the
      due-soon tasks. */
  lemma LimitToShowDueSoon(ts: seq<Task>, now: int, t: Task)
    requires |Shortlist(ts, now)| >= TASKLIST_LENGTH
    ensures t in LimitToShow(ts, false, now) <==> t in ts && DueSoon(t, now)
  {
    if t in ts && DueSoon(t, now) {
      ShortlistComplete(ts, now, t);
    }
  }

  /** Ruby's `(x / y).to_i` for a positive divisor: the quotient truncated
      toward zero, unlike Dafny's `/`, which floors for a positive divisor. */
  function TruncDiv(a: int, b: int): (r: int)
    requires b > 0
    ensures a >= 0 ==> 0 <= r && r * b <= a < r * b + b
    ensures a < 0 ==> r <= 0 && r * b - b < a <= r * b
  {
    if a >= 0 then
      DivBracket(a, b);
      a / b
    else
      var q := (-a) / b;
      DivBracket(-a, b);
      assert (-q) * b == -(q * b);
      -q
  }

  /** Dafny's `/` on a non-negative dividend brackets it between two
      multiples of the divisor. */
  lemma DivBracket(x: int, b: int)
    requires x >= 0 && b > 0
    ensures 0 <= x / b && x / b * b <= x < x / b * b + b
  {
  }

  /** A count and its unit word, plural only for counts above one. */
  function Counted(n: int, unit: string): (r: string)
    ensures n <= 1 ==> r == IntToString(n) + " " + unit
    ensures n > 1 ==> r == IntToString(n) + " " + unit + "s"
    ensures n == 1 ==> r == "1 " + unit
  {
    IntToString(n) + " " + (if n > 1 then unit + "s" else unit)
  }

  /** `diff_to_text`: a duration in words. */
  function DiffToText(duration: int): (r: string)
    ensures r == "past due" || (|r| > 7 && r[..7] == "due in ")
  {
    var days := TruncDiv(duration, DAY);
    var hours := TruncDiv(duration - days * DAY, HOUR);
    var minutes := (duration % HOUR) / 60;
    if days > 0 then
      if days >= URGENT_DAYS then "due in " + IntToString(days) + " days"
      else if hours > 0 then "due in " + Counted(days, "day") + " " + Counted(hours, "hour")
      else "due in " + Counted(days, "day")
    else if hours > 0 then "due in " + Counted(hours, "hour") + " " + Counted(minutes, "minute")
    else if duration > 0 then "due in " + Counted(minutes, "minute")
    else "past due"
  }

  /** Exactly the durations up to zero read "past due". */
  lemma DiffToTextPastDue(duration: int)
    ensures DiffToText(duration) == "past due" <==> duration <= 0
  {
    if duration > 0 {
      var r := DiffToText(duration);
      assert r[0] == 'd';
    }
  }

  /** Two days or more: only the whole days. */
  lemma DiffToTextDays(duration: int)
    requires duration >= URGENT_THRESHOLD
    ensures DiffToText(duration) == "due in " + NatToString(duration / DAY) + " days"
  {
  }

  /** Under a minute the count is zero and, not being above one, keeps the
      singular unit word. */
  lemma DiffToTextUnderMinute(duration: int)
    requires 0 < duration < 60
    ensures DiffToText(duration) == "due in 0 minute"
  {
    assert TruncDiv(duration, DAY) == 0 && TruncDiv(duration, HOUR) == 0;
    assert IntToString(0) == "0";
  }

  /** Between one and two days: one day and the whole hours beyond it,
      the hours only when there is at least one. */
  lemma DiffToTextOneDay(duration: int)
    requires DAY <= duration < URGENT_THRESHOLD
    ensures var h := (duration - DAY) / HOUR;
      0 <= h < 24
      && DiffToText(duration) == "due in 1 day" + (if h > 0 then " " + Counted(h, "hour") else "")
  {
    var d := TruncDiv(duration, DAY);
    assert d == 1;
    var h := TruncDiv(duration - d * DAY, HOUR);
    assert h == (duration - DAY) / HOUR by {
      DivBracket(duration - DAY, HOUR);
    }
    assert 0 <= h < 24;
    assert DiffToText(duration) == if h > 0 then "due in " + Counted(1, "day") + " " + Counted(h, "hour")
                                   else "due in " + Counted(1, "day");
    OneDayText(h);
  }

  lemma OneDayText(h: int)
    ensures "due in " + Counted(1, "day") == "due in 1 day"
    ensures "due in " + Counted(1, "day") + " " + Counted(h, "hour") == "due in 1 day" + (" " + Counted(h, "hour"))
  {
    assert "due in " + "1 day" == "due in 1 day";
  }

  /** Under a day: the whole hours and the minutes beyond them. */
  lemma DiffToTextHours(duration: int)
    requires HOUR <= duration < DAY
    ensures var h := duration / HOUR;
      var m := duration % HOUR / 60;
      1 <= h < 24 && 0 <= m < 60
      && DiffToText(duration) == "due in " + Counted(h, "hour") + " " + Counted(m, "minute")
  {
    var d := TruncDiv(duration, DAY);
    assert d == 0;
    var h := TruncDiv(duration - d * DAY, HOUR);
    assert h == duration / HOUR by {
      DivBracket(duration, HOUR);
    }
    assert 1 <= h < 24;
    var m := duration % HOUR / 60;
    assert 0 <= m < 60;
    assert DiffToText(duration) == "due in " + Counted(h, "hour") + " " + Counted(m, "minute");
  }

  /** Under an hour: the whole minutes, possibly zero. */
  lemma DiffToTextMinutes(duration: int)
    requires 0 < duration < HOUR
    ensures var m := duration / 60;
      0 <= m < 60 && DiffToText(duration) == "due in " + Counted(m, "minute")
  {
  }

  datatype Color = Green | Yellow | Red

  /** Red is the most pressing colour, green the least. */
  function Calmness(c: Color): nat {
    match c
    case Red => 0
    case Yellow => 1
    case Green => 2
  }

  /** `choose_color_by_diff`. */
  function ChooseColorByDiff(duration: int): (c: Color)
    ensures c == Green <==> duration > NORMAL_THRESHOLD
    ensures c == Red <==> duration <= URGENT_THRESHOLD
  {
    if duration > NORMAL_THRESHOLD then Green
    else if duration > URGENT_THRESHOLD then Yellow
    else Red
  }

  /** More time left never gives a more pressing colour. */
  lemma ColorMonotone(d1: int, d2: int)
    requires d1 <= d2
    ensures Calmness(ChooseColorByDiff(d1)) <= Calmness(ChooseColorByDiff(d2))
  {
  }

  /** `count_urgent`'s block: a date, and due within `URGENT_THRESHOLD`. */
  predicate Urgent(t: Task, now: int) {
    t.due.Some? && t.due.value - now <= URGENT_THRESHOLD
  }

  /** `count_urgent`. */
  function CountUrgent(ts: seq<Task>, now: int): (r: nat)
    ensures r <= |ts|
  {
    if ts == [] then 0
    else (if Urgent(ts[0], now) then 1 else 0) + CountUrgent(ts[1..], now)
  }

  lemma {:induction false} CountUrgentAppend(a: seq<Task>, b: seq<Task>, now: int)
    ensures CountUrgent(a + b, now) == CountUrgent(a, now) + CountUrgent(b, now)
  {
    if a != [] {
      assert (a + b)[0] == a[0] && (a + b)[1..] == a[1..] + b;
      CountUrgentAppend(a[1..], b, now);
    } else {
      assert a + b == b;
    }
  }

  /** No urgent task is counted exactly when none is urgent, and every
      task is counted exactly when all are. */
  lemma {:induction false} CountUrgentExtremes(ts: seq<Task>, now: int)
    ensures CountUrgent(ts, now) == 0 <==> forall t :: t in ts ==> !Urgent(t, now)
    ensures CountUrgent(ts, now) == |ts| <==> forall t :: t in ts ==> Urgent(t, now)
  {
    if ts != [] {
      CountUrgentExtremes(ts[1..], now);
      assert forall t :: t in ts <==> t == ts[0] || t in ts[1..];
    }
  }

  /** A dated task is urgent exactly when its colour is red. */
  lemma UrgentIsRed(t: Task, now: int)
    requires t.due.Some?
    ensures Urgent(t, now) <==> ChooseColorByDiff(t.due.value - now) == Red
  {
  }

  /** Urgent tasks are due soon, so they never outnumber the shortlist. */
  lemma {:induction false} CountUrgentWithinShortlist(ts: seq<Task>, now: int)
    ensures CountUrgent(ts, now) <= |Shortlist(ts, now)|
  {
    if ts != [] {
      CountUrgentWithinShortlist(ts[1..], now);
    }
  }
}
