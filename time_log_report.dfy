/**
 * `getReportData`: the grouped SQL query over one user's closed rows and the
 * loop that folds its rows into totals per date, per project and per client.
 */
module TimeLogReport {
  import opened Wrappers
  import opened Calendar
  import opened Migration

  /**
   * The rows the report reads: the user's, with an end, and when a bound is
   * given a start no earlier than `startOfDay` of the start date and no later
   * than `endOfDay` of the end date. Both bounds test the start.
   */
  predicate InReport(l: TimeLog, user: nat, startDate: Option<int>, endDate: Option<int>) {
    && l.userId == user
    && (startDate.Some? ==> l.start >= StartOfDay(startDate.value))
    && (endDate.Some? ==> l.start <= EndOfDay(endDate.value))
    && l.end.Some?
  }

  /** The bounds on timestamps select exactly the rows whose start day lies between the dates. */
  lemma InReportByDay(l: TimeLog, user: nat, startDate: Option<int>, endDate: Option<int>)
    ensures InReport(l, user, startDate, endDate) <==>
      && l.userId == user
      && l.end.Some?
      && (startDate.Some? ==> startDate.value <= DayOf(l.start))
      && (endDate.Some? ==> DayOf(l.start) <= endDate.value)
  {
    if startDate.Some? { WithinDays(l.start, startDate.value, 0); }
    if endDate.Some? { WithinDays(l.start, 0, endDate.value); }
  }

  function ReportLogs(logs: seq<TimeLog>, user: nat, startDate: Option<int>, endDate: Option<int>): (r: seq<TimeLog>)
    ensures forall l :: l in r <==> l in logs && InReport(l, user, startDate, endDate)
  {
    if logs == [] then []
    else
      var rest := ReportLogs(logs[1..], user, startDate, endDate);
      assert forall l :: l in logs <==> l == logs[0] || l in logs[1..];
      if InReport(logs[0], user, startDate, endDate) then [logs[0]] + rest else rest
  }

  /** One row of `GROUP BY DATE(start_time), project_id, client_id` with its `SUM(hours)`. */
  datatype Row = Row(day: int, projectId: nat, clientId: nat, total: int)

  /** The three views of the report, each keyed by one column. */
  datatype View = ByDate | ByProject | ByClient

  /** What a sum counts: every row, or those whose key in one view is `k`. */
  datatype Selector = All | Only(view: View, k: int)

  function RowKey(r: Row, v: View): int {
    match v
    case ByDate => r.day
    case ByProject => r.projectId
    case ByClient => r.clientId
  }

  function LogKey(l: TimeLog, v: View): int {
    match v
    case ByDate => DayOf(l.start)
    case ByProject => l.projectId
    case ByClient => l.clientId
  }

  predicate RowSelected(r: Row, s: Selector) {
    s.All? || RowKey(r, s.view) == s.k
  }

  predicate LogSelected(l: TimeLog, s: Selector) {
    s.All? || LogKey(l, s.view) == s.k
  }

  /** `SUM(hours)` over the selected logs; a null adds nothing. */
  function SumLogs(logs: seq<TimeLog>, s: Selector): int {
    if logs == [] then 0
    else SumLogs(logs[..|logs| - 1], s) + (if LogSelected(logs[|logs| - 1], s) then logs[|logs| - 1].hours.GetOr(0) else 0)
  }

  function SumRows(rows: seq<Row>, s: Selector): int {
    if rows == [] then 0
    else SumRows(rows[..|rows| - 1], s) + (if RowSelected(rows[|rows| - 1], s) then rows[|rows| - 1].total else 0)
  }

  function RowKeys(rows: seq<Row>, v: View): (r: seq<int>)
    ensures |r| == |rows| && forall i :: 0 <= i < |rows| ==> r[i] == RowKey(rows[i], v)
  {
    seq(|rows|, i requires 0 <= i < |rows| => RowKey(rows[i], v))
  }

  function LogKeys(logs: seq<TimeLog>, v: View): (r: seq<int>)
    ensures |r| == |logs| && forall i :: 0 <= i < |logs| ==> r[i] == LogKey(logs[i], v)
  {
    seq(|logs|, i requires 0 <= i < |logs| => LogKey(logs[i], v))
  }

  predicate SameGroup(r: Row, l: TimeLog) {
    r.day == DayOf(l.start) && r.projectId == l.projectId && r.clientId == l.clientId
  }

  predicate DistinctGroups(rows: seq<Row>) {
    forall i, j :: 0 <= i < j < |rows| ==>
      (rows[i].day, rows[i].projectId, rows[i].clientId) != (rows[j].day, rows[j].projectId, rows[j].clientId)
  }

  function FindGroup(rows: seq<Row>, l: TimeLog): (r: Option<nat>)
    ensures r.Some? ==> r.value < |rows| && SameGroup(rows[r.value], l)
    ensures r.None? ==> forall i :: 0 <= i < |rows| ==> !SameGroup(rows[i], l)
  {
    if rows == [] then None
    else if SameGroup(rows[|rows| - 1], l) then Some(|rows| - 1)
    else FindGroup(rows[..|rows| - 1], l)
  }

  /** Fold one log into its group, opening the group when it is the first of its kind. */
  function AddLog(rows: seq<Row>, l: TimeLog): (r: seq<Row>)
    requires DistinctGroups(rows)
    ensures DistinctGroups(r)
  {
    match FindGroup(rows, l)
    case Some(j) => rows[j := rows[j].(total := rows[j].total + l.hours.GetOr(0))]
    case None => rows + [Row(DayOf(l.start), l.projectId, l.clientId, l.hours.GetOr(0))]
  }

  predicate SameTriple(a: Row, b: Row) {
    a.day == b.day && a.projectId == b.projectId && a.clientId == b.clientId
  }

  /** Folding a log in keeps the triple of every group and adds at most the log's own, last. */
  lemma AddLogTriples(rows: seq<Row>, l: TimeLog)
    requires DistinctGroups(rows)
    ensures |AddLog(rows, l)| == |rows| || (|AddLog(rows, l)| == |rows| + 1 && SameGroup(AddLog(rows, l)[|rows|], l))
    ensures forall i :: 0 <= i < |rows| ==> SameTriple(AddLog(rows, l)[i], rows[i])
    ensures FindGroup(AddLog(rows, l), l).Some?
  {
    match FindGroup(rows, l)
    case Some(j) =>
      assert SameGroup(AddLog(rows, l)[j], l);
    case None =>
      assert SameGroup(AddLog(rows, l)[|rows|], l);
  }

  /** The groups of the query, one row per distinct (date, project, client), in some order. */
  function Group(logs: seq<TimeLog>): (r: seq<Row>)
    ensures DistinctGroups(r)
  {
    if logs == [] then [] else AddLog(Group(logs[..|logs| - 1]), logs[|logs| - 1])
  }

  /** The position of a log of the row's triple, if any. */
  function FindLogOfGroup(logs: seq<TimeLog>, r: Row): (k: Option<nat>)
    ensures k.Some? ==> k.value < |logs| && SameGroup(r, logs[k.value])
    ensures k.None? ==> forall j :: 0 <= j < |logs| ==> !SameGroup(r, logs[j])
  {
    if logs == [] then None
    else if SameGroup(r, logs[|logs| - 1]) then Some(|logs| - 1)
    else FindLogOfGroup(logs[..|logs| - 1], r)
  }

  /** Every log's triple has a group, and every group is the triple of some log. */
  lemma {:induction false} GroupCovers(logs: seq<TimeLog>)
    ensures forall k :: 0 <= k < |logs| ==> FindGroup(Group(logs), logs[k]).Some?
    ensures forall i :: 0 <= i < |Group(logs)| ==> FindLogOfGroup(logs, Group(logs)[i]).Some?
  {
    if logs != [] {
      var n := |logs| - 1;
      assert logs == logs[..n] + [logs[n]];
      GroupCovers(logs[..n]);
      CoversStepLogs(logs[..n], logs[n], Group(logs[..n]));
      CoversStepRows(logs[..n], logs[n], Group(logs[..n]));
    }
  }

  /** Folding `x` into groups that cover `prefix` gives a group for every log of `prefix + [x]`. */
  lemma CoversStepLogs(prefix: seq<TimeLog>, x: TimeLog, prev: seq<Row>)
    requires DistinctGroups(prev)
    requires forall k :: 0 <= k < |prefix| ==> FindGroup(prev, prefix[k]).Some?
    ensures forall k :: 0 <= k < |prefix| + 1 ==> FindGroup(AddLog(prev, x), (prefix + [x])[k]).Some?
  {
    AddLogTriples(prev, x);
    forall k | 0 <= k < |prefix|
      ensures FindGroup(AddLog(prev, x), prefix[k]).Some?
    {
      KeptGroup(prev, x, FindGroup(prev, prefix[k]).value, prefix[k]);
    }
  }

  /** A log whose group `prev[i]` is has the same group after a fold. */
  lemma KeptGroup(prev: seq<Row>, x: TimeLog, i: nat, l: TimeLog)
    requires DistinctGroups(prev) && i < |prev| && SameGroup(prev[i], l)
    ensures FindGroup(AddLog(prev, x), l).Some?
  {
    AddLogTriples(prev, x);
    assert SameTriple(AddLog(prev, x)[i], prev[i]);
  }

  /** Folding `x` into groups each of which has a log in `prefix` gives groups each with a log in `prefix + [x]`. */
  lemma CoversStepRows(prefix: seq<TimeLog>, x: TimeLog, prev: seq<Row>)
    requires DistinctGroups(prev)
    requires forall i :: 0 <= i < |prev| ==> FindLogOfGroup(prefix, prev[i]).Some?
    ensures forall i :: 0 <= i < |AddLog(prev, x)| ==> FindLogOfGroup(prefix + [x], AddLog(prev, x)[i]).Some?
  {
    var logs, r := prefix + [x], AddLog(prev, x);
    AddLogTriples(prev, x);
    forall i | 0 <= i < |r|
      ensures FindLogOfGroup(logs, r[i]).Some?
    {
      if i < |prev| {
        var k := FindLogOfGroup(prefix, prev[i]).value;
        assert SameTriple(r[i], prev[i]);
        assert SameGroup(r[i], logs[k]);
      } else {
        assert SameGroup(r[i], logs[|prefix|]);
      }
    }
  }

  /** `SUM(hours)` over the logs of one row's (date, project, client) group. */
  function TripleTotal(logs: seq<TimeLog>, r: Row): int {
    if logs == [] then 0
    else TripleTotal(logs[..|logs| - 1], r) + (if SameGroup(r, logs[|logs| - 1]) then logs[|logs| - 1].hours.GetOr(0) else 0)
  }

  /** The total depends only on a row's triple. */
  lemma {:induction false} TripleTotalOfTriple(logs: seq<TimeLog>, a: Row, b: Row)
    requires SameTriple(a, b)
    ensures TripleTotal(logs, a) == TripleTotal(logs, b)
  {
    if logs != [] { TripleTotalOfTriple(logs[..|logs| - 1], a, b); }
  }

  /** No log of the triple, no hours. */
  lemma {:induction false} TripleTotalAbsent(logs: seq<TimeLog>, r: Row)
    requires FindLogOfGroup(logs, r).None?
    ensures TripleTotal(logs, r) == 0
  {
    if logs != [] {
      var n := |logs| - 1;
      assert forall j :: 0 <= j < n ==> logs[..n][j] == logs[j];
      TripleTotalAbsent(logs[..n], r);
    }
  }

  /** Each group's `SUM(hours)` is the sum over exactly the logs of its own triple. */
  lemma {:induction false} GroupTotals(logs: seq<TimeLog>)
    ensures forall i :: 0 <= i < |Group(logs)| ==> Group(logs)[i].total == TripleTotal(logs, Group(logs)[i])
  {
    if logs != [] {
      var n := |logs| - 1;
      var prefix, x := logs[..n], logs[n];
      assert logs == prefix + [x];
      GroupTotals(prefix);
      GroupCovers(prefix);
      var prev := Group(prefix);
      forall i | 0 <= i < |AddLog(prev, x)|
        ensures AddLog(prev, x)[i].total == TripleTotal(prefix + [x], AddLog(prev, x)[i])
      {
        AddLogRowTotal(prefix, x, prev, i);
      }
    }
  }

  /** One row of the fold of a last log `x`, given the totals and the coverage of the groups before it. */
  lemma AddLogRowTotal(prefix: seq<TimeLog>, x: TimeLog, prev: seq<Row>, i: nat)
    requires DistinctGroups(prev)
    requires forall j :: 0 <= j < |prev| ==> prev[j].total == TripleTotal(prefix, prev[j])
    requires forall k :: 0 <= k < |prefix| ==> FindGroup(prev, prefix[k]).Some?
    requires i < |AddLog(prev, x)|
    ensures AddLog(prev, x)[i].total == TripleTotal(prefix + [x], AddLog(prev, x)[i])
  {
    var r := AddLog(prev, x);
    assert (prefix + [x])[..|prefix|] == prefix;
    AddLogTriples(prev, x);
    if i < |prev| {
      TripleTotalOfTriple(prefix, r[i], prev[i]);
      OldGroupGains(prev, x, i);
    } else {
      NewGroupTotal(prefix, x, prev);
    }
  }

  /** An old group gains the log's hours exactly when it is the log's group. */
  lemma OldGroupGains(prev: seq<Row>, x: TimeLog, i: nat)
    requires DistinctGroups(prev) && i < |prev|
    ensures AddLog(prev, x)[i].total == prev[i].total + (if SameGroup(prev[i], x) then x.hours.GetOr(0) else 0)
  {
    match FindGroup(prev, x)
    case Some(j) =>
      if i != j {
        assert !SameGroup(prev[i], x);
      }
    case None =>
  }

  /** A group opened by `x` holds only `x`'s hours: no earlier log has its triple. */
  lemma NewGroupTotal(prefix: seq<TimeLog>, x: TimeLog, prev: seq<Row>)
    requires DistinctGroups(prev)
    requires forall k :: 0 <= k < |prefix| ==> FindGroup(prev, prefix[k]).Some?
    requires FindGroup(prev, x).None?
    ensures TripleTotal(prefix, AddLog(prev, x)[|prev|]) == 0
  {
    TripleTotalAbsent(prefix, AddLog(prev, x)[|prev|]);
  }

  lemma {:induction false} SumRowsUpdate(rows: seq<Row>, j: nat, r: Row, s: Selector)
    requires j < |rows|
    ensures SumRows(rows[j := r], s) == SumRows(rows, s)
      - (if RowSelected(rows[j], s) then rows[j].total else 0)
      + (if RowSelected(r, s) then r.total else 0)
  {
    var n := |rows| - 1;
    if j < n {
      assert rows[j := r][..n] == rows[..n][j := r];
      SumRowsUpdate(rows[..n], j, r, s);
    } else {
      assert rows[j := r][..n] == rows[..n];
    }
  }

  lemma AddLogSum(rows: seq<Row>, l: TimeLog, s: Selector)
    requires DistinctGroups(rows)
    ensures SumRows(AddLog(rows, l), s) == SumRows(rows, s) + (if LogSelected(l, s) then l.hours.GetOr(0) else 0)
  {
    match FindGroup(rows, l)
    case Some(j) =>
      var r := rows[j].(total := rows[j].total + l.hours.GetOr(0));
      SelectedSameGroup(rows[j], l, s);
      SelectedSameGroup(r, l, s);
      SumRowsUpdate(rows, j, r, s);
    case None =>
      var r := Row(DayOf(l.start), l.projectId, l.clientId, l.hours.GetOr(0));
      SelectedSameGroup(r, l, s);
      SumRowsSnoc(rows, r, s);
  }

  /** A group row is selected exactly when the logs of its group are. */
  lemma SelectedSameGroup(r: Row, l: TimeLog, s: Selector)
    requires SameGroup(r, l)
    ensures RowSelected(r, s) <==> LogSelected(l, s)
  {
  }

  /** Grouping loses no hours: each selection sums the same over the groups as over the logs. */
  lemma {:induction false} GroupSum(logs: seq<TimeLog>, s: Selector)
    ensures SumRows(Group(logs), s) == SumLogs(logs, s)
  {
    if logs != [] {
      GroupSum(logs[..|logs| - 1], s);
      AddLogSum(Group(logs[..|logs| - 1]), logs[|logs| - 1], s);
    }
  }

  lemma AddLogKeys(rows: seq<Row>, l: TimeLog, v: View)
    requires DistinctGroups(rows)
    ensures forall k :: k in RowKeys(AddLog(rows, l), v) <==> k in RowKeys(rows, v) || k == LogKey(l, v)
  {
    var r := AddLog(rows, l);
    match FindGroup(rows, l)
    case Some(j) =>
      forall k ensures k in RowKeys(r, v) <==> k in RowKeys(rows, v) || k == LogKey(l, v) {
        if k in RowKeys(r, v) {
          var i :| 0 <= i < |r| && RowKeys(r, v)[i] == k;
          assert RowKeys(rows, v)[i] == k;
        }
        if k == LogKey(l, v) { assert RowKeys(rows, v)[j] == k; }
        if k in RowKeys(rows, v) {
          var i :| 0 <= i < |rows| && RowKeys(rows, v)[i] == k;
          assert RowKeys(r, v)[i] == k;
        }
      }
    case None =>
      assert RowKeys(r, v) == RowKeys(rows, v) + [LogKey(l, v)];
  }

  /** Every key of a view that some log has is the key of some group, and no other. */
  lemma {:induction false} GroupKeys(logs: seq<TimeLog>, v: View)
    ensures forall k :: k in RowKeys(Group(logs), v) <==> k in LogKeys(logs, v)
  {
    if logs != [] {
      var n := |logs| - 1;
      GroupKeys(logs[..n], v);
      AddLogKeys(Group(logs[..n]), logs[n], v);
      assert LogKeys(logs, v) == LogKeys(logs[..n], v) + [LogKey(logs[n], v)];
    }
  }

  lemma {:induction false} SumRowsAppend(a: seq<Row>, b: seq<Row>, s: Selector)
    ensures SumRows(a + b, s) == SumRows(a, s) + SumRows(b, s)
  {
    if b == [] {
      assert a + b == a;
    } else {
      var n := |b| - 1;
      assert (a + b)[..|a + b| - 1] == a + b[..n];
      SumRowsAppend(a, b[..n], s);
    }
  }

  lemma SumRowsRemove(b: seq<Row>, j: nat, s: Selector)
    requires j < |b|
    ensures SumRows(b, s) == SumRows(b[..j] + b[j + 1..], s) + (if RowSelected(b[j], s) then b[j].total else 0)
  {
    assert b == b[..j] + [b[j]] + b[j + 1..];
    SumRowsAppend(b[..j] + [b[j]], b[j + 1..], s);
    SumRowsAppend(b[..j], b[j + 1..], s);
    assert (b[..j] + [b[j]])[..j] == b[..j];
  }

  lemma MultisetRemove(a: seq<Row>, b: seq<Row>, j: nat)
    requires a != [] && j < |b| && multiset(a) == multiset(b) && b[j] == a[|a| - 1]
    ensures multiset(a[..|a| - 1]) == multiset(b[..j] + b[j + 1..])
  {
    var x := b[j];
    var a', b' := a[..|a| - 1], b[..j] + b[j + 1..];
    assert a == a' + [x];
    assert b == b[..j] + [x] + b[j + 1..];
    assert multiset(b) == multiset(b[..j]) + multiset{x} + multiset(b[j + 1..]);
    assert multiset(b') == multiset(b[..j]) + multiset(b[j + 1..]);
    assert multiset(a) == multiset(a') + multiset{x};
    assert multiset(a') == multiset(a) - multiset{x};
    assert multiset(b') == multiset(b) - multiset{x};
  }

  /** A sum over rows does not depend on their order. */
  lemma {:induction false} SumRowsPermutation(a: seq<Row>, b: seq<Row>, s: Selector)
    requires multiset(a) == multiset(b)
    ensures SumRows(a, s) == SumRows(b, s)
  {
    if a != [] {
      var n := |a| - 1;
      assert a[n] in multiset(b);
      var j :| 0 <= j < |b| && b[j] == a[n];
      MultisetRemove(a, b, j);
      SumRowsPermutation(a[..n], b[..j] + b[j + 1..], s);
      SumRowsRemove(b, j, s);
    }
  }

  /**
   * What `DB::select` may return for this query: the groups, in an order the
   * database chooses within `ORDER BY DATE(start_time) DESC`.
   */
  predicate QueryResult(rows: seq<Row>, logs: seq<TimeLog>) {
    multiset(rows) == multiset(Group(logs)) && DaysDescending(rows)
  }

  /** `ORDER BY DATE(start_time) DESC`: no row has a later day than the one before it. */
  predicate DaysDescending(rows: seq<Row>) {
    forall i, j :: 0 <= i < j < |rows| ==> rows[i].day >= rows[j].day
  }

  /** Insert a row into rows ordered latest day first. */
  function InsertByDay(r: Row, rows: seq<Row>): (res: seq<Row>)
    requires DaysDescending(rows)
    ensures DaysDescending(res)
    ensures multiset(res) == multiset(rows) + multiset{r}
    ensures res[0] == r || (rows != [] && res[0] == rows[0])
  {
    if rows == [] then [r]
    else if r.day >= rows[0].day then
      PrependDay(r, rows);
      [r] + rows
    else
      var rest := InsertByDay(r, rows[1..]);
      assert rows == [rows[0]] + rows[1..];
      PrependDay(rows[0], rest);
      [rows[0]] + rest
  }

  lemma PrependDay(r: Row, rows: seq<Row>)
    requires DaysDescending(rows)
    requires rows != [] ==> r.day >= rows[0].day
    ensures DaysDescending([r] + rows)
  {
    var all := [r] + rows;
    forall i, j | 0 <= i < j < |all|
      ensures all[i].day >= all[j].day
    {
      if i > 0 {
        assert all[i] == rows[i - 1] && all[j] == rows[j - 1];
      } else if j > 1 {
        assert rows[0].day >= rows[j - 1].day;
      }
    }
  }

  function SortByDayDesc(rows: seq<Row>): (res: seq<Row>)
    ensures DaysDescending(res)
    ensures multiset(res) == multiset(rows)
  {
    if rows == [] then []
    else
      assert rows == [rows[0]] + rows[1..];
      InsertByDay(rows[0], SortByDayDesc(rows[1..]))
  }

  /** The database can always answer the report query: its groups, ordered by day. */
  lemma ReportQueryAnswerable(logs: seq<TimeLog>)
    ensures QueryResult(SortByDayDesc(Group(logs)), logs)
  {
  }

  /** One `(key, hours)` pair of `by_date`, `by_project` or `by_client`. */
  datatype Entry = Entry(key: int, hours: int)

  function Keys(es: seq<Entry>): (r: seq<int>)
    ensures |r| == |es| && forall i :: 0 <= i < |es| ==> r[i] == es[i].key
  {
    seq(|es|, i requires 0 <= i < |es| => es[i].key)
  }

  predicate DistinctKeys(es: seq<Entry>) {
    forall i, j :: 0 <= i < j < |es| ==> es[i].key != es[j].key
  }

  /** The hours of a list of entries added up. */
  function Total(es: seq<Entry>): int {
    if es == [] then 0 else Total(es[..|es| - 1]) + es[|es| - 1].hours
  }

  function IndexOf(es: seq<Entry>, k: int): (r: Option<nat>)
    ensures r.Some? ==> r.value < |es| && es[r.value].key == k
    ensures r.None? ==> k !in Keys(es)
  {
    if es == [] then None
    else if es[|es| - 1].key == k then Some(|es| - 1)
    else
      var r := IndexOf(es[..|es| - 1], k);
      assert forall i :: 0 <= i < |es| - 1 ==> Keys(es)[i] == Keys(es[..|es| - 1])[i];
      r
  }

  /** `if (!isset($a[$k])) $a[$k] = 0; $a[$k] += $h;` on an insertion-ordered PHP array. */
  function AddTo(es: seq<Entry>, k: int, h: int): (r: seq<Entry>)
    requires DistinctKeys(es)
    ensures k in Keys(es) ==> |r| == |es|
    ensures k !in Keys(es) ==> r == es + [Entry(k, h)]
  {
    match IndexOf(es, k)
    case Some(j) => es[j := Entry(k, es[j].hours + h)]
    case None => es + [Entry(k, h)]
  }

  /**
   * What `+=` does to the array: keys stay distinct, the key is present
   * afterwards, only its entry grows by `h`, and every other entry keeps its
   * key, its hours and its position.
   */
  lemma AddToSpec(es: seq<Entry>, k: int, h: int)
    requires DistinctKeys(es)
    ensures var r := AddTo(es, k, h);
      && DistinctKeys(r)
      && (forall x :: x in Keys(r) <==> x in Keys(es) || x == k)
      && (forall i :: 0 <= i < |r| ==> r[i].hours == (if i < |es| then es[i].hours else 0) + (if r[i].key == k then h else 0))
      && |es| <= |r| && (forall i :: 0 <= i < |es| ==> r[i].key == es[i].key)
  {
    var r := AddTo(es, k, h);
    match IndexOf(es, k)
    case Some(j) =>
      assert Keys(r) == Keys(es);
    case None =>
      assert Keys(r) == Keys(es) + [k];
  }

  lemma {:induction false} TotalUpdate(es: seq<Entry>, j: nat, e: Entry)
    requires j < |es|
    ensures Total(es[j := e]) == Total(es) - es[j].hours + e.hours
  {
    var n := |es| - 1;
    if j < n {
      assert es[j := e][..n] == es[..n][j := e];
      TotalUpdate(es[..n], j, e);
    } else {
      assert es[j := e][..n] == es[..n];
    }
  }

  lemma AddToTotal(es: seq<Entry>, k: int, h: int)
    requires DistinctKeys(es)
    ensures Total(AddTo(es, k, h)) == Total(es) + h
  {
    match IndexOf(es, k)
    case Some(j) =>
      TotalUpdate(es, j, Entry(k, es[j].hours + h));
    case None =>
      assert (es + [Entry(k, h)])[..|es|] == es;
  }

  /** After the loop has read `rows`, the entries of one view describe exactly those rows. */
  ghost predicate Describes(es: seq<Entry>, rows: seq<Row>, v: View) {
    && DistinctKeys(es)
    && (forall i :: 0 <= i < |es| ==> es[i].hours == SumRows(rows, Only(v, es[i].key)))
    && (forall k :: k in Keys(es) <==> k in RowKeys(rows, v))
    && Total(es) == SumRows(rows, All)
  }

  /** A key no row has sums to nothing. */
  lemma {:induction false} SumRowsAbsent(rows: seq<Row>, v: View, k: int)
    requires k !in RowKeys(rows, v)
    ensures SumRows(rows, Only(v, k)) == 0
  {
    if rows != [] {
      var n := |rows| - 1;
      assert RowKeys(rows, v) == RowKeys(rows[..n], v) + [RowKey(rows[n], v)];
      SumRowsAbsent(rows[..n], v, k);
    }
  }

  lemma SumRowsSnoc(rows: seq<Row>, r: Row, s: Selector)
    ensures SumRows(rows + [r], s) == SumRows(rows, s) + (if RowSelected(r, s) then r.total else 0)
  {
    assert (rows + [r])[..|rows|] == rows;
  }

  lemma StepHours(es: seq<Entry>, rows: seq<Row>, r: Row, v: View)
    requires Describes(es, rows, v)
    ensures var es' := AddTo(es, RowKey(r, v), r.total);
      forall i :: 0 <= i < |es'| ==> es'[i].hours == SumRows(rows + [r], Only(v, es'[i].key))
  {
    var k := RowKey(r, v);
    var es' := AddTo(es, k, r.total);
    AddToSpec(es, k, r.total);
    forall i | 0 <= i < |es'|
      ensures es'[i].hours == SumRows(rows + [r], Only(v, es'[i].key))
    {
      SumRowsSnoc(rows, r, Only(v, es'[i].key));
      if i >= |es| {
        SumRowsAbsent(rows, v, k);
      }
    }
  }

  lemma Step(es: seq<Entry>, rows: seq<Row>, r: Row, v: View)
    requires Describes(es, rows, v)
    ensures Describes(AddTo(es, RowKey(r, v), r.total), rows + [r], v)
  {
    var k := RowKey(r, v);
    AddToSpec(es, k, r.total);
    AddToTotal(es, k, r.total);
    SumRowsSnoc(rows, r, All);
    assert RowKeys(rows + [r], v) == RowKeys(rows, v) + [k];
    StepHours(es, rows, r, v);
  }

  lemma StepAt(es: seq<Entry>, rows: seq<Row>, i: nat, v: View)
    requires i < |rows|
    requires Describes(es, rows[..i], v)
    ensures Describes(AddTo(es, RowKey(rows[i], v), rows[i].total), rows[..i + 1], v)
  {
    assert rows[..i + 1] == rows[..i] + [rows[i]];
    Step(es, rows[..i], rows[i], v);
  }

  /**
   * One view of the report summarises the reported logs: each key the column
   * takes appears once, with the hours of the logs that have it, and the view
   * adds up to the hours of all of them.
   */
  ghost predicate Summarises(es: seq<Entry>, L: seq<TimeLog>, v: View) {
    && DistinctKeys(es)
    && (forall i :: 0 <= i < |es| ==> es[i].hours == SumLogs(L, Only(v, es[i].key)))
    && (forall k :: k in Keys(es) <==> k in LogKeys(L, v))
    && Total(es) == SumLogs(L, All)
  }

  predicate Descending(es: seq<Entry>) {
    forall i, j :: 0 <= i < j < |es| ==> es[i].key > es[j].key
  }

  lemma DateStep(es: seq<Entry>, last: int, d: int, h: int)
    requires DistinctKeys(es) && Descending(es)
    requires es != [] ==> es[|es| - 1].key == last && d <= last
    ensures var r := AddTo(es, d, h); Descending(r) && r[|r| - 1].key == d
  {
    AddToSpec(es, d, h);
    if es != [] && d == last {
      assert Keys(es)[|es| - 1] == d;
    } else if es != [] {
      assert d !in Keys(es);
    }
  }

  /**
   * `getReportData`: fold the query's rows, in the order the database returned
   * them, into `by_date`, `by_project` and `by_client`. Each view lists every
   * key its column takes among the reported logs exactly once with the hours of
   * those logs, dates run from latest to earliest, and each view adds up to
   * the hours of all reported logs.
   */
  method GetReportData(logs: seq<TimeLog>, user: nat, startDate: Option<int>, endDate: Option<int>, rows: seq<Row>)
      returns (byDate: seq<Entry>, byProject: seq<Entry>, byClient: seq<Entry>)
    requires QueryResult(rows, ReportLogs(logs, user, startDate, endDate))
    ensures var L := ReportLogs(logs, user, startDate, endDate);
      && Summarises(byDate, L, ByDate)
      && Summarises(byProject, L, ByProject)
      && Summarises(byClient, L, ByClient)
      && Descending(byDate)
  {
    byDate, byProject, byClient := FoldRows(rows);
    Finish(byDate, byProject, byClient, rows, ReportLogs(logs, user, startDate, endDate));
  }

  /** The loop of `getReportData`: each row's total is added under its date, project and client. */
  method FoldRows(rows: seq<Row>) returns (byDate: seq<Entry>, byProject: seq<Entry>, byClient: seq<Entry>)
    requires DaysDescending(rows)
    ensures Folded(byDate, byProject, byClient, rows, |rows|)
  {
    var views := Views([], [], []);
    var i := 0;
    while i < |rows|
      invariant 0 <= i <= |rows|
      invariant FoldedViews(views, rows, i)
    {
      FoldViews(views, rows, i);
      views := AddRow(views, rows[i]);
      i := i + 1;
    }
    byDate, byProject, byClient := views.byDate, views.byProject, views.byClient;
  }

  /** The three arrays the loop fills. */
  datatype Views = Views(byDate: seq<Entry>, byProject: seq<Entry>, byClient: seq<Entry>)

  ghost predicate FoldedViews(views: Views, rows: seq<Row>, i: nat)
    requires i <= |rows|
  {
    Folded(views.byDate, views.byProject, views.byClient, rows, i)
  }

  /** One pass of the loop body: the row's total under its date, its project and its client. */
  function AddRow(views: Views, row: Row): (r: Views)
    requires DistinctKeys(views.byDate) && DistinctKeys(views.byProject) && DistinctKeys(views.byClient)
    ensures r.byDate == AddTo(views.byDate, row.day, row.total)
    ensures r.byProject == AddTo(views.byProject, row.projectId, row.total)
    ensures r.byClient == AddTo(views.byClient, row.clientId, row.total)
  {
    Views(AddTo(views.byDate, row.day, row.total), AddTo(views.byProject, row.projectId, row.total),
          AddTo(views.byClient, row.clientId, row.total))
  }

  lemma FoldViews(views: Views, rows: seq<Row>, i: nat)
    requires i < |rows|
    requires DaysDescending(rows)
    requires FoldedViews(views, rows, i)
    ensures DistinctKeys(views.byDate) && DistinctKeys(views.byProject) && DistinctKeys(views.byClient)
    ensures FoldedViews(AddRow(views, rows[i]), rows, i + 1)
  {
    Fold(views.byDate, views.byProject, views.byClient, rows, i);
  }

  /** After the last row the three views summarise the reported logs. */
  lemma Finish(byDate: seq<Entry>, byProject: seq<Entry>, byClient: seq<Entry>, rows: seq<Row>, L: seq<TimeLog>)
    requires multiset(rows) == multiset(Group(L))
    requires Folded(byDate, byProject, byClient, rows, |rows|)
    ensures Summarises(byDate, L, ByDate) && Summarises(byProject, L, ByProject) && Summarises(byClient, L, ByClient)
    ensures Descending(byDate)
  {
    assert rows[..|rows|] == rows;
    ReportTotals(rows, L, byDate, ByDate);
    ReportTotals(rows, L, byProject, ByProject);
    ReportTotals(rows, L, byClient, ByClient);
  }

  /** The loop's state after reading the first `i` rows. */
  ghost predicate Folded(byDate: seq<Entry>, byProject: seq<Entry>, byClient: seq<Entry>, rows: seq<Row>, i: nat)
    requires i <= |rows|
  {
    && Describes(byDate, rows[..i], ByDate)
    && Describes(byProject, rows[..i], ByProject)
    && Describes(byClient, rows[..i], ByClient)
    && Descending(byDate)
    && (if i == 0 then byDate == [] else byDate != [] && byDate[|byDate| - 1].key == rows[i - 1].day)
  }

  lemma Fold(byDate: seq<Entry>, byProject: seq<Entry>, byClient: seq<Entry>, rows: seq<Row>, i: nat)
    requires i < |rows|
    requires DaysDescending(rows)
    requires Folded(byDate, byProject, byClient, rows, i)
    ensures Folded(AddTo(byDate, rows[i].day, rows[i].total), AddTo(byProject, rows[i].projectId, rows[i].total),
                   AddTo(byClient, rows[i].clientId, rows[i].total), rows, i + 1)
  {
    StepAt(byDate, rows, i, ByDate);
    StepAt(byProject, rows, i, ByProject);
    StepAt(byClient, rows, i, ByClient);
    DateAt(byDate, rows, i);
  }

  lemma DateAt(byDate: seq<Entry>, rows: seq<Row>, i: nat)
    requires i < |rows|
    requires DaysDescending(rows)
    requires DistinctKeys(byDate) && Descending(byDate)
    requires if i == 0 then byDate == [] else byDate != [] && byDate[|byDate| - 1].key == rows[i - 1].day
    ensures var r := AddTo(byDate, rows[i].day, rows[i].total); Descending(r) && r != [] && r[|r| - 1].key == rows[i].day
  {
    if i > 0 {
      assert rows[i - 1].day >= rows[i].day;
      DateStep(byDate, rows[i - 1].day, rows[i].day, rows[i].total);
    } else {
      DateStep(byDate, rows[i].day, rows[i].day, rows[i].total);
    }
  }

  /** Entries that describe a query result describe the reported logs. */
  lemma ReportTotals(rows: seq<Row>, L: seq<TimeLog>, es: seq<Entry>, v: View)
    requires multiset(rows) == multiset(Group(L))
    requires Describes(es, rows, v)
    ensures Summarises(es, L, v)
  {
    forall s: Selector ensures SumRows(rows, s) == SumLogs(L, s) {
      SumRowsPermutation(rows, Group(L), s);
      GroupSum(L, s);
    }
    GroupKeys(L, v);
    forall k ensures k in RowKeys(rows, v) <==> k in RowKeys(Group(L), v) {
      if k in RowKeys(rows, v) {
        var i :| 0 <= i < |rows| && RowKeys(rows, v)[i] == k;
        assert rows[i] in multiset(Group(L));
        var j :| 0 <= j < |Group(L)| && Group(L)[j] == rows[i];
        assert RowKeys(Group(L), v)[j] == k;
      }
      if k in RowKeys(Group(L), v) {
        var j :| 0 <= j < |Group(L)| && RowKeys(Group(L), v)[j] == k;
        assert Group(L)[j] in multiset(rows);
        var i :| 0 <= i < |rows| && rows[i] == Group(L)[j];
        assert RowKeys(rows, v)[i] == k;
      }
    }
  }
}
