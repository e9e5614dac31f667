/**
 * The read side of `ProjectTimeLogController` over one user's rows: the
 * filters shared by `index` and `getTotalHours`, `index`'s ordering, and the
 * total with the running timer's elapsed time folded in.
 */
module TimeLogQueries {
  import opened Wrappers
  import opened Calendar
  import opened Migration

  /** The optional filters; an absent or empty request parameter is None. */
  datatype LogFilter = LogFilter(projectId: Option<nat>, clientId: Option<nat>, startDate: Option<int>, endDate: Option<int>)

  const NoFilter: LogFilter := LogFilter(None, None, None, None)

  /**
   * The user's rows, then each filter present: project, client,
   * `whereDate('start_time', '>=', d)` and `whereDate('end_time', '<=', d)`,
   * which a running row (null end) never satisfies.
   */
  predicate Matches(l: TimeLog, user: nat, f: LogFilter) {
    && l.userId == user
    && (f.projectId.Some? ==> l.projectId == f.projectId.value)
    && (f.clientId.Some? ==> l.clientId == f.clientId.value)
    && (f.startDate.Some? ==> DayOf(l.start) >= f.startDate.value)
    && (f.endDate.Some? ==> l.end.Some? && DayOf(l.end.value) <= f.endDate.value)
  }

  /** The rows the query selects, in table order. */
  function Matching(logs: seq<TimeLog>, user: nat, f: LogFilter): (r: seq<TimeLog>)
    ensures forall l :: l in r <==> l in logs && Matches(l, user, f)
    ensures |r| <= |logs|
  {
    if logs == [] then []
    else
      var rest := Matching(logs[1..], user, f);
      assert forall l :: l in logs <==> l == logs[0] || l in logs[1..];
      if Matches(logs[0], user, f) then [logs[0]] + rest else rest
  }

  /** Each selected row occurs in the selection as often as in the table. */
  lemma {:induction false} MatchingCount(logs: seq<TimeLog>, user: nat, f: LogFilter)
    ensures forall l :: multiset(Matching(logs, user, f))[l] == if Matches(l, user, f) then multiset(logs)[l] else 0
  {
    if logs != [] {
      MatchingCount(logs[1..], user, f);
      assert logs == [logs[0]] + logs[1..];
    }
  }

  predicate StartsDescending(s: seq<TimeLog>) {
    forall i, j :: 0 <= i < j < |s| ==> s[i].start >= s[j].start
  }

  lemma PrependDescending(x: TimeLog, s: seq<TimeLog>)
    requires StartsDescending(s)
    requires s != [] ==> x.start >= s[0].start
    ensures StartsDescending([x] + s)
  {
    var r := [x] + s;
    forall i, j | 0 <= i < j < |r|
      ensures r[i].start >= r[j].start
    {
      if i > 0 {
        assert r[i] == s[i - 1] && r[j] == s[j - 1];
      } else if j > 1 {
        assert s[0].start >= s[j - 1].start;
      }
    }
  }

  /** Insert into a sequence ordered latest start first. */
  function InsertByStart(l: TimeLog, s: seq<TimeLog>): (r: seq<TimeLog>)
    requires StartsDescending(s)
    ensures StartsDescending(r)
    ensures multiset(r) == multiset(s) + multiset{l}
    ensures r[0] == l || (s != [] && r[0] == s[0])
  {
    if s == [] then [l]
    else if l.start >= s[0].start then
      PrependDescending(l, s);
      [l] + s
    else
      var rest := InsertByStart(l, s[1..]);
      assert s == [s[0]] + s[1..];
      PrependDescending(s[0], rest);
      [s[0]] + rest
  }

  /** `orderBy('start_time', 'desc')`: a permutation of `s`, latest start first. */
  function SortByStartDesc(s: seq<TimeLog>): (r: seq<TimeLog>)
    ensures StartsDescending(r)
    ensures multiset(r) == multiset(s)
    ensures |r| == |s|
  {
    if s == [] then []
    else
      assert s == [s[0]] + s[1..];
      InsertByStart(s[0], SortByStartDesc(s[1..]))
  }

  /** `index` (before pagination): exactly the matching rows, each once, latest start first. */
  function Index(logs: seq<TimeLog>, user: nat, f: LogFilter): (r: seq<TimeLog>)
    ensures StartsDescending(r)
    ensures multiset(r) == multiset(Matching(logs, user, f))
    ensures forall l :: multiset(r)[l] == if Matches(l, user, f) then multiset(logs)[l] else 0
    ensures forall l :: l in r <==> l in logs && Matches(l, user, f)
  {
    var r := SortByStartDesc(Matching(logs, user, f));
    MatchingCount(logs, user, f);
    assert forall l :: l in r <==> l in multiset(r);
    r
  }

  /** `->orderBy('start_time', 'desc')->first()`: a matching row that no other row starts after. */
  function Latest(s: seq<TimeLog>): (l: TimeLog)
    requires s != []
    ensures l in s
    ensures forall x :: x in s ==> x.start <= l.start
  {
    var r := SortByStartDesc(s);
    assert r[0] in multiset(s);
    assert forall x :: x in s ==> x in multiset(r);
    r[0]
  }

  /** `SUM(hours)`: null hours add nothing and an empty sum is 0. */
  function SumHours(s: seq<TimeLog>): int {
    if s == [] then 0 else s[0].hours.GetOr(0) + SumHours(s[1..])
  }

  lemma {:induction false} SumHoursAppend(a: seq<TimeLog>, b: seq<TimeLog>)
    ensures SumHours(a + b) == SumHours(a) + SumHours(b)
  {
    if a == [] {
      assert a + b == b;
    } else {
      assert (a + b)[0] == a[0];
      assert (a + b)[1..] == a[1..] + b;
      SumHoursAppend(a[1..], b);
    }
  }

  /** Only rows with an end carry hours, and they are at least zero: the sum bounds each one. */
  lemma {:induction false} SumHoursBoundsEach(s: seq<TimeLog>, i: nat)
    requires i < |s|
    requires forall j :: 0 <= j < |s| ==> s[j].hours.GetOr(0) >= 0
    ensures 0 <= s[i].hours.GetOr(0) <= SumHours(s)
  {
    if i > 0 {
      SumHoursBoundsEach(s[1..], i - 1);
    } else if |s| > 1 {
      SumHoursNonNegative(s[1..]);
    }
  }

  lemma {:induction false} SumHoursNonNegative(s: seq<TimeLog>)
    requires forall j :: 0 <= j < |s| ==> s[j].hours.GetOr(0) >= 0
    ensures SumHours(s) >= 0
  {
    if s != [] {
      SumHoursNonNegative(s[1..]);
    }
  }

  /**
   * Seconds the running timer adds: when the latest matching row has no end,
   * Carbon's `diffInSeconds` between `now` and its start (an absolute value).
   */
  function RunningSeconds(s: seq<TimeLog>, now: int): (r: int)
    ensures r >= 0
    ensures r > 0 ==> s != [] && Latest(s).end.None?
  {
    if s != [] && Latest(s).end.None? then
      (if now >= Latest(s).start then now - Latest(s).start else Latest(s).start - now)
    else 0
  }

  /**
   * `getTotalHours` in hundredths: the stored hours of the matching rows plus
   * the running timer's seconds (1/36 of a hundredth each), rounded by
   * `round(..., 2)`: the result is within half a hundredth of the exact total.
   */
  function TotalHours(logs: seq<TimeLog>, user: nat, f: LogFilter, now: int): (r: int)
    ensures var s := Matching(logs, user, f);
      -18 <= 36 * r - (36 * SumHours(s) + RunningSeconds(s, now)) <= 18
  {
    var s := Matching(logs, user, f);
    RoundHalfAway(36 * SumHours(s) + RunningSeconds(s, now), 36)
  }

  /** With no running timer among the latest rows the total is the exact sum of stored hours. */
  lemma TotalWithoutTimer(logs: seq<TimeLog>, user: nat, f: LogFilter, now: int)
    requires var s := Matching(logs, user, f); s == [] || Latest(s).end.Some?
    ensures TotalHours(logs, user, f, now) == SumHours(Matching(logs, user, f))
  {
  }

  /** A filter on `end_date` drops running rows, so the total then never includes elapsed time. */
  lemma EndDateFilterIgnoresTimer(logs: seq<TimeLog>, user: nat, f: LogFilter, now: int)
    requires f.endDate.Some?
    ensures TotalHours(logs, user, f, now) == SumHours(Matching(logs, user, f))
  {
    var s := Matching(logs, user, f);
    if s != [] {
      assert Latest(s) in s;
    }
  }

  /** With no negative hours stored, the total is never negative, whatever the clock says. */
  lemma TotalHoursNonNegative(logs: seq<TimeLog>, user: nat, f: LogFilter, now: int)
    requires forall i :: 0 <= i < |logs| ==> logs[i].hours.GetOr(0) >= 0
    ensures TotalHours(logs, user, f, now) >= 0
  {
    var s := Matching(logs, user, f);
    assert forall j :: 0 <= j < |s| ==> s[j] in logs;
    SumHoursNonNegative(s);
  }

  /** Without a running timer and with no negative hours, the total is at least any one matching row's hours. */
  lemma TotalCoversEachRow(logs: seq<TimeLog>, user: nat, f: LogFilter, now: int, i: nat)
    requires forall j :: 0 <= j < |logs| ==> logs[j].hours.GetOr(0) >= 0
    requires var s := Matching(logs, user, f); s == [] || Latest(s).end.Some?
    requires i < |Matching(logs, user, f)|
    ensures Matching(logs, user, f)[i].hours.GetOr(0) <= TotalHours(logs, user, f, now)
  {
    var s := Matching(logs, user, f);
    assert forall j :: 0 <= j < |s| ==> s[j] in logs;
    SumHoursBoundsEach(s, i);
    TotalWithoutTimer(logs, user, f, now);
  }

  lemma {:induction false} MatchingAppend(logs: seq<TimeLog>, l: TimeLog, user: nat, f: LogFilter)
    ensures Matching(logs + [l], user, f) == Matching(logs, user, f) + (if Matches(l, user, f) then [l] else [])
  {
    if logs == [] {
      assert logs + [l] == [l];
      assert [l][1..] == [];
    } else {
      assert (logs + [l])[0] == logs[0];
      assert (logs + [l])[1..] == logs[1..] + [l];
      MatchingAppend(logs[1..], l, user, f);
    }
  }

  /** A row appended by `start` or `store` adds its stored hours to the sum exactly when it matches. */
  lemma SumOfAppendedRow(logs: seq<TimeLog>, l: TimeLog, user: nat, f: LogFilter)
    ensures SumHours(Matching(logs + [l], user, f)) ==
      SumHours(Matching(logs, user, f)) + (if Matches(l, user, f) then l.hours.GetOr(0) else 0)
  {
    MatchingAppend(logs, l, user, f);
    var tail := if Matches(l, user, f) then [l] else [];
    SumHoursAppend(Matching(logs, user, f), tail);
    if Matches(l, user, f) {
      assert [l][1..] == [];
    }
  }

  /** A lone timer started 90 minutes ago totals 1.50 hours. */
  lemma NinetyMinuteTimer(l: TimeLog, now: int)
    requires l.end.None? && l.hours.None? && l.start == now - 5400
    ensures TotalHours([l], l.userId, NoFilter, now) == 150
  {
    assert Matching([l], l.userId, NoFilter) == [l];
    assert Latest([l]) == l;
    assert SumHours([l]) == 0;
    assert RunningSeconds([l], now) == 5400;
    assert RoundHalfAway(5400, 36) == 150;
  }
}
