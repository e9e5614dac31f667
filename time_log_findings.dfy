/**
 * Three places where `ProjectTimeLogController` lets a user's timeline break the
 * design's invariant "at most one running log per user, and no overlaps". Each
 * section has a scenario over the actions as written, then the corrected rule
 * with the intended property proved about it.
 */
module TimeLogFindings {
  import opened Wrappers
  import opened Migration
  import opened Tables
  import opened TimeLogController

  /** No two of `user`'s rows are running at once. */
  predicate AtMostOneRunning(logs: seq<TimeLog>, user: nat) {
    forall i, j :: 0 <= i < j < |logs| && logs[i].userId == user && logs[j].userId == user
      ==> logs[i].end.Some? || logs[j].end.Some?
  }

  /** `user` has a running row. */
  predicate HasRunning(logs: seq<TimeLog>, user: nat) {
    exists i :: 0 <= i < |logs| && logs[i].userId == user && logs[i].end.None?
  }

  // ----- store without an end -----

  /**
   * A manual entry without an end, starting at `now`, for a user who already has
   * a running log and no row starting before `now` (a timer just started, say):
   * `store` accepts it, and the user has two running logs.
   */
  method SecondRunningLogByStore(db: Database, user: nat, projectId: nat, now: int, description: Option<string>)
      returns (r: Result<TimeLog>)
    requires db.Valid()
    requires OwnsProject(db.projects, user, projectId)
    requires HasRunning(db.logs, user)
    requires forall i :: 0 <= i < |db.logs| && db.logs[i].userId == user ==> db.logs[i].start >= now
    modifies db
    ensures r.Ok? && r.value.end.None?
    ensures !AtMostOneRunning(db.logs, user)
  {
    ghost var before := db.logs;
    ghost var k :| 0 <= k < |before| && before[k].userId == user && before[k].end.None?;
    AcceptedOpenEntry(db.logs, user, now);
    r := Store(db, user, now, ManualEntry(Some(projectId), Some(now), None, description, None));
    assert db.logs[k] == before[k] && db.logs[|before|] == r.value;
  }

  /** No row of the user starts before `now`, so an entry starting at `now` without an end passes the open test. */
  lemma AcceptedOpenEntry(logs: seq<TimeLog>, user: nat, now: int)
    ensures (forall i :: 0 <= i < |logs| && logs[i].userId == user ==> logs[i].start >= now)
      ==> !EntryOverlaps(logs, user, now, None)
  {
  }

  /**
   * The design's overlap test, an absent end counting as unbounded on both sides:
   * `[s, e)` meets a row `[s', e')` when `s' < e` and `s < e'`.
   */
  predicate IntendedEntryOverlaps(logs: seq<TimeLog>, user: nat, s: int, e: Option<int>) {
    exists i :: 0 <= i < |logs| && logs[i].userId == user &&
      (e.None? || logs[i].start < e.value) && (logs[i].end.None? || s < logs[i].end.value)
  }

  /** For an entry with an end the corrected test is the one `store` runs. */
  lemma IntendedAgreesWithClosed(logs: seq<TimeLog>, user: nat, s: int, e: int)
    ensures IntendedEntryOverlaps(logs, user, s, Some(e)) <==> EntryOverlaps(logs, user, s, Some(e))
  {
  }

  /** The corrected test refuses an open entry whenever the user has a running row. */
  lemma IntendedRefusesSecondRunning(logs: seq<TimeLog>, user: nat, s: int)
    ensures HasRunning(logs, user) ==> IntendedEntryOverlaps(logs, user, s, None)
  {
  }

  /** A row the corrected test accepts keeps at most one running log per user. */
  lemma IntendedEntryKeepsOneRunning(logs: seq<TimeLog>, row: TimeLog)
    requires AtMostOneRunning(logs, row.userId)
    requires !IntendedEntryOverlaps(logs, row.userId, row.start, row.end)
    ensures AtMostOneRunning(logs + [row], row.userId)
  {
    var all := logs + [row];
    forall i, j | 0 <= i < j < |all| && all[i].userId == row.userId && all[j].userId == row.userId
      ensures all[i].end.Some? || all[j].end.Some?
    {
      if j == |logs| && row.end.None? {
        assert all[i] == logs[i];
        IntendedRefusesSecondRunning(logs, row.userId, row.start);
      } else if j < |logs| {
        assert all[i] == logs[i] && all[j] == logs[j];
      }
    }
  }

  // ----- start beside a timer on another project -----

  /**
   * Starting a timer on a project with no running log, for a user who already
   * has a timer running on another project: `start` succeeds, and the user has
   * two running logs.
   */
  method TimerBesideAnotherProject(db: Database, user: nat, q: nat, now: int, req: TimerRequest)
      returns (r: Result<TimeLog>)
    requires db.Valid()
    requires OwnsProject(db.projects, user, q)
    requires HasRunning(db.logs, user)
    requires forall i :: 0 <= i < |db.logs| ==> db.logs[i].projectId != q
    requires req.tag.None?
    modifies db
    ensures r.Ok? && r.value.end.None? && r.value.projectId == q
    ensures !AtMostOneRunning(db.logs, user)
  {
    ghost var before := db.logs;
    ghost var k :| 0 <= k < |before| && before[k].userId == user && before[k].end.None?;
    r := Start(db, user, q, now, req);
    assert db.logs[k] == before[k] && db.logs[|before|] == r.value;
  }

  /** The design's guard for `start`: the user has no running log on any project. */
  predicate IntendedStartAllowed(logs: seq<TimeLog>, user: nat) {
    !HasRunning(logs, user)
  }

  /** A timer the corrected guard lets through is the user's only running log. */
  lemma IntendedStartKeepsOneRunning(logs: seq<TimeLog>, row: TimeLog)
    requires IntendedStartAllowed(logs, row.userId)
    ensures AtMostOneRunning(logs + [row], row.userId)
  {
    var all := logs + [row];
    forall i, j | 0 <= i < j < |all| && all[i].userId == row.userId && all[j].userId == row.userId
      ensures all[i].end.Some? || all[j].end.Some?
    {
      assert all[i] == logs[i];
    }
  }

  // ----- update with an end -----

  /**
   * Updating a running log with an end time: the request passes every check and
   * the action succeeds, but the stored row is still running.
   */
  method UpdateLeavesTimerRunning(db: Database, user: nat, id: nat, now: int) returns (r: Result<TimeLog>)
    requires db.Valid()
    requires FindLog(db.logs, user, id).Some?
    requires db.logs[FindLog(db.logs, user, id).value].end.None?
    requires db.logs[FindLog(db.logs, user, id).value].start <= now
    modifies db
    ensures r.Ok? && r.value.end.None?
  {
    r := Update(db, user, id, now, LogChanges(None, Some(now), None, None));
  }

  /** The row as the design updates it: a non-empty `end_time` in the request is stored too. */
  function IntendedChangedRow(l: TimeLog, c: LogChanges): (r: TimeLog)
    ensures r.end == if c.end.Some? then c.end else l.end
    ensures r.(end := l.end) == ChangedRow(l, c)
  {
    ChangedRow(l, c).(end := if c.end.Some? then c.end else l.end)
  }

  /** Once written, a corrected update with an end carries the hours of the requested interval. */
  lemma IntendedUpdateDerivesHours(l: TimeLog, c: LogChanges)
    requires c.end.Some? && Write(IntendedChangedRow(l, c)).Some?
    ensures Write(IntendedChangedRow(l, c)).value.end == c.end
    ensures Write(IntendedChangedRow(l, c)).value.hours == Some(DerivedHours(c.start.GetOr(l.start), c.end.value))
  {
  }

  // ----- update moving a closed log's start -----

  /**
   * Moving the start of a closed log one minute past its end, with nothing else
   * in the request: no end check and no overlap query runs, and `update` stores
   * a row that ends before it starts, with negative hours.
   */
  method UpdateStartPastEnd(db: Database, user: nat, id: nat, now: int) returns (r: Result<TimeLog>)
    requires db.Valid()
    requires FindLog(db.logs, user, id).Some?
    requires db.logs[FindLog(db.logs, user, id).value].end.Some?
    requires db.logs[FindLog(db.logs, user, id).value].end.value + 60 <= now
    modifies db
    ensures r.Ok? && r.value.end.Some? && r.value.end.value < r.value.start
    ensures r.value.hours == Some(-2)
  {
    var e := db.logs[FindLog(db.logs, user, id).value].end.value;
    assert WholeMinutes(e + 60, e) == -1;
    assert CentiHours(-1) == -2;
    r := Update(db, user, id, now, LogChanges(Some(e + 60), None, None, None));
  }

  /** Another log of the user, not the one with `id`, meets `[s, e)`; an absent end is unbounded. */
  predicate IntendedUpdateOverlaps(logs: seq<TimeLog>, user: nat, id: nat, s: int, e: Option<int>) {
    exists j :: 0 <= j < |logs| && logs[j].userId == user && logs[j].id != id &&
      (e.None? || logs[j].start < e.value) && (logs[j].end.None? || s < logs[j].end.value)
  }

  /**
   * The design's checks for `update`, run on the row as it would be stored: the
   * requested times are not in the future, the stored end is not before the
   * stored start, and the stored interval meets no other log of the user.
   */
  predicate IntendedUpdateAllowed(logs: seq<TimeLog>, l: TimeLog, c: LogChanges, now: int) {
    var row := IntendedChangedRow(l, c);
    && (c.start.Some? ==> c.start.value <= now)
    && (c.end.Some? ==> c.end.value <= now)
    && (row.end.Some? ==> row.start <= row.end.value)
    && !IntendedUpdateOverlaps(logs, l.userId, l.id, row.start, row.end)
  }

  /** The corrected checks refuse a start moved past a closed log's end. */
  lemma IntendedRefusesStartPastEnd(logs: seq<TimeLog>, l: TimeLog, c: LogChanges, now: int)
    requires l.end.Some? && c.end.None? && c.start.Some? && c.start.value > l.end.value
    ensures !IntendedUpdateAllowed(logs, l, c, now)
  {
  }

  /** A closed row the corrected checks let through is written with non-negative hours. */
  lemma IntendedUpdateHoursNonNegative(logs: seq<TimeLog>, l: TimeLog, c: LogChanges, now: int)
    requires IntendedUpdateAllowed(logs, l, c, now)
    requires IntendedChangedRow(l, c).end.Some? && Write(IntendedChangedRow(l, c)).Some?
    ensures Write(IntendedChangedRow(l, c)).value.hours.value >= 0
  {
    var row := IntendedChangedRow(l, c);
    assert WholeMinutes(row.start, row.start) == 0;
    assert DerivedHours(row.start, row.start) == 0;
    DerivedHoursMonotone(row.start, row.start, row.end.value);
  }

  /** An update the corrected checks let through keeps at most one running log per user. */
  lemma IntendedUpdateKeepsOneRunning(logs: seq<TimeLog>, i: nat, c: LogChanges, now: int)
    requires i < |logs|
    requires forall j :: 0 <= j < |logs| && j != i ==> logs[j].id != logs[i].id
    requires AtMostOneRunning(logs, logs[i].userId)
    requires IntendedUpdateAllowed(logs, logs[i], c, now)
    ensures AtMostOneRunning(logs[i := IntendedChangedRow(logs[i], c)], logs[i].userId)
  {
    var row := IntendedChangedRow(logs[i], c);
    var all := logs[i := row];
    var user := logs[i].userId;
    forall p, q | 0 <= p < q < |all| && all[p].userId == user && all[q].userId == user
      ensures all[p].end.Some? || all[q].end.Some?
    {
      if p != i && q != i {
        assert all[p] == logs[p] && all[q] == logs[q];
      } else if row.end.None? {
        var j := if p == i then q else p;
        assert all[j] == logs[j] && logs[j].id != logs[i].id;
      }
    }
  }
}
