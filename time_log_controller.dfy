/**
 * `ProjectTimeLogController`: the start/stop timer, manual entry and its overlap
 * check, the lenient update, show and destroy. Every action takes the
 * authenticated user and, where the source reads the clock, `now`.
 */
module TimeLogController {
  import opened Wrappers
  import opened Text
  import opened Migration
  import opened Tables

  // ----- Overlap conditions (the raw SQL of `store` and `update`) -----

  /** `start_time < e AND (end_time > s OR end_time IS NULL)`. */
  predicate ConflictsClosed(l: TimeLog, s: int, e: int) {
    l.start < e && (l.end.None? || l.end.value > s)
  }

  /** `start_time < s AND (end_time > s OR end_time IS NULL)`: the new start falls strictly inside `l`. */
  predicate ConflictsOpen(l: TimeLog, s: int) {
    l.start < s && (l.end.None? || l.end.value > s)
  }

  /** An instant `t` of the interval `l` covers, a running log counting as unbounded. */
  predicate Covers(l: TimeLog, t: int) {
    l.start <= t && (l.end.None? || t < l.end.value)
  }

  /**
   * For a non-empty candidate `[s, e)` and an existing log that is running or of
   * positive length, the SQL condition holds exactly when the two share an instant.
   */
  lemma ConflictsClosedIsSharedInstant(l: TimeLog, s: int, e: int)
    requires s < e
    requires l.end.Some? ==> l.start < l.end.value
    ensures ConflictsClosed(l, s, e) <==> exists t :: Covers(l, t) && s <= t < e
  {
    if ConflictsClosed(l, s, e) {
      var t := if l.start < s then s else l.start;
      assert Covers(l, t) && s <= t < e;
    }
  }

  /** `store`'s overlap query over the user's rows: with an end the closed test, without one the open test. */
  predicate EntryOverlaps(logs: seq<TimeLog>, user: nat, s: int, e: Option<int>) {
    exists i :: 0 <= i < |logs| && logs[i].userId == user &&
      (if e.Some? then ConflictsClosed(logs[i], s, e.value) else ConflictsOpen(logs[i], s))
  }

  /**
   * The overlap law for closed entries: a candidate interval is refused exactly
   * when it shares an instant with one of the user's rows (all of which are
   * running or of positive length), and is accepted when it is disjoint from all.
   */
  lemma EntryOverlapsIffShared(logs: seq<TimeLog>, user: nat, s: int, e: int)
    requires s < e
    requires forall i :: 0 <= i < |logs| && logs[i].end.Some? ==> logs[i].start < logs[i].end.value
    ensures EntryOverlaps(logs, user, s, Some(e)) <==>
      exists i, t :: 0 <= i < |logs| && logs[i].userId == user && Covers(logs[i], t) && s <= t < e
  {
    if EntryOverlaps(logs, user, s, Some(e)) {
      var i :| 0 <= i < |logs| && logs[i].userId == user && ConflictsClosed(logs[i], s, e);
      ConflictsClosedIsSharedInstant(logs[i], s, e);
    }
    if exists i, t :: 0 <= i < |logs| && logs[i].userId == user && Covers(logs[i], t) && s <= t < e {
      var i, t :| 0 <= i < |logs| && logs[i].userId == user && Covers(logs[i], t) && s <= t < e;
      ConflictsClosedIsSharedInstant(logs[i], s, e);
    }
  }

  /**
   * Outside the law's assumptions: `store` may write a zero-length row
   * (`end == start`), which covers no instant, yet a later entry that contains
   * it strictly is refused as an overlap.
   */
  lemma ZeroLengthRowStillRefuses(l: TimeLog, s: int, e: int)
    requires l.end == Some(l.start) && s < l.start < e
    ensures forall t :: !Covers(l, t)
    ensures EntryOverlaps([l], l.userId, s, Some(e))
  {
    assert [l][0] == l;
  }

  // ----- start / stop -----

  datatype TimerRequest = TimerRequest(description: Option<string>, tag: Option<string>)

  predicate IsRunningFor(l: TimeLog, projectId: nat) { l.projectId == projectId && l.end.None? }

  /** `ProjectTimeLog::where('project_id', $id)->whereNull('end_time')->first()`, whoever owns the row. */
  function RunningLog(logs: seq<TimeLog>, projectId: nat): (r: Option<nat>)
    ensures r.Some? ==> r.value < |logs| && IsRunningFor(logs[r.value], projectId)
    ensures r.None? <==> forall j :: 0 <= j < |logs| ==> !IsRunningFor(logs[j], projectId)
  {
    FirstWhere(logs, (l: TimeLog) => IsRunningFor(l, projectId))
  }

  /** Some row of the user starts strictly after `t`. */
  predicate StartedAfter(logs: seq<TimeLog>, user: nat, t: int) {
    exists j :: 0 <= j < |logs| && logs[j].userId == user && logs[j].start > t
  }

  /** The row `start` creates: running, started now, with the project's client. */
  function TimerRow(id: nat, user: nat, projectId: nat, clientId: nat, now: int, req: TimerRequest): (r: TimeLog)
    requires TagWritable(req.tag)
    ensures r.end.None? && r.hours.None? && r.start == now
  {
    // The insert trigger leaves `hours` null: `end_time` is null.
    TimeLog(id, user, projectId, clientId, now, None, OrEmpty(req.description), None, TagValue(req.tag))
  }

  method Start(db: Database, user: nat, projectId: nat, now: int, req: TimerRequest) returns (r: Result<TimeLog>)
    requires db.Valid()
    modifies db
    ensures db.Valid()
    ensures !OwnsProject(old(db.projects), user, projectId) ==> r == Err(NotFound)
    ensures OwnsProject(old(db.projects), user, projectId) && RunningLog(old(db.logs), projectId).Some?
      ==> r == Err(OngoingLog)
    ensures r == Err(StorageError) <==>
      OwnsProject(old(db.projects), user, projectId) && RunningLog(old(db.logs), projectId).None? && !TagWritable(req.tag)
    ensures r.Ok? <==>
      OwnsProject(old(db.projects), user, projectId) && RunningLog(old(db.logs), projectId).None? && TagWritable(req.tag)
    ensures r.Err? ==> unchanged(db)
    ensures r.Ok? ==>
      && TagWritable(req.tag) && OwnsProject(old(db.projects), user, projectId)
      && r.value == TimerRow(old(db.nextLogId), user, projectId, old(db.projects)[projectId].clientId, now, req)
    ensures r.Ok? ==> db.logs == old(db.logs) + [r.value] && db.nextLogId == old(db.nextLogId) + 1
    ensures r.Ok? ==>
      && db.clients == old(db.clients) && db.projects == old(db.projects)
      && db.nextClientId == old(db.nextClientId) && db.nextProjectId == old(db.nextProjectId)
  {
    if !OwnsProject(db.projects, user, projectId) {
      return Err(NotFound);
    }
    if RunningLog(db.logs, projectId).Some? {
      return Err(OngoingLog);
    }
    if !TagWritable(req.tag) {
      return Err(StorageError);
    }
    var row := TimerRow(db.nextLogId, user, projectId, db.projects[projectId].clientId, now, req);
    AppendKeepsAscending(db.logs, row, db.nextLogId);
    db.logs := db.logs + [row];
    db.nextLogId := db.nextLogId + 1;
    r := Ok(row);
  }

  method Stop(db: Database, user: nat, projectId: nat, now: int) returns (r: Result<TimeLog>)
    requires db.Valid()
    modifies db
    ensures db.Valid()
    ensures r.Err? ==> unchanged(db)
    ensures !OwnsProject(old(db.projects), user, projectId) ==> r == Err(NotFound)
    ensures OwnsProject(old(db.projects), user, projectId) && RunningLog(old(db.logs), projectId).None?
      ==> r == Err(NoOngoingLog)
    ensures OwnsProject(old(db.projects), user, projectId) && RunningLog(old(db.logs), projectId).Some? ==>
      var i := RunningLog(old(db.logs), projectId).value;
      var closed := old(db.logs)[i].(end := Some(now));
      && (StartedAfter(old(db.logs), user, old(db.logs)[i].start) ==> r == Err(LaterLogExists))
      && (!StartedAfter(old(db.logs), user, old(db.logs)[i].start) && Write(closed).None? ==> r == Err(StorageError))
      && (!StartedAfter(old(db.logs), user, old(db.logs)[i].start) && Write(closed).Some? ==>
            r == Ok(Write(closed).value) && db.logs == old(db.logs)[i := r.value])
    ensures r.Ok? ==> r.value.end == Some(now) && r.value.hours == Some(DerivedHours(r.value.start, now))
    ensures r.Ok? ==>
      && db.clients == old(db.clients) && db.projects == old(db.projects) && |db.logs| == |old(db.logs)|
      && db.nextClientId == old(db.nextClientId) && db.nextProjectId == old(db.nextProjectId)
      && db.nextLogId == old(db.nextLogId)
  {
    if !OwnsProject(db.projects, user, projectId) {
      return Err(NotFound);
    }
    var running := RunningLog(db.logs, projectId);
    if running.None? {
      return Err(NoOngoingLog);
    }
    var i := running.value;
    if StartedAfter(db.logs, user, db.logs[i].start) {
      return Err(LaterLogExists);
    }
    var written := Write(db.logs[i].(end := Some(now)));
    if written.None? {
      return Err(StorageError);
    }
    db.logs := db.logs[i := written.value];
    r := Ok(written.value);
  }

  // ----- store: manual entry -----

  /** The request fields `store` reads; absent fields are None. */
  datatype ManualEntry = ManualEntry(
    projectId: Option<nat>,
    start: Option<int>,
    end: Option<int>,
    description: Option<string>,
    tag: Option<string>)

  /** The Validator: `project_id` required and an existing project, `start_time` required. */
  predicate EntryValidates(projects: map<nat, Project>, e: ManualEntry) {
    e.projectId.Some? && e.projectId.value in projects && e.start.Some?
  }

  /** The time checks, in order: start not in the future; with an end, end not before start and not in the future. */
  predicate EntryTimesAcceptable(e: ManualEntry, now: int)
    requires e.start.Some?
  {
    e.start.value <= now && (e.end.Some? ==> e.start.value <= e.end.value <= now)
  }

  function EntryRow(id: nat, user: nat, clientId: nat, e: ManualEntry): TimeLog
    requires e.projectId.Some? && e.start.Some? && TagWritable(e.tag)
  {
    TimeLog(id, user, e.projectId.value, clientId, e.start.value, e.end, OrEmpty(e.description), None, TagValue(e.tag))
  }

  method Store(db: Database, user: nat, now: int, e: ManualEntry) returns (r: Result<TimeLog>)
    requires db.Valid()
    modifies db
    ensures db.Valid()
    ensures r.Err? ==> unchanged(db)
    ensures !EntryValidates(old(db.projects), e) ==> r == Err(Invalid)
    ensures EntryValidates(old(db.projects), e) ==>
      var s := e.start.value;
      && (!OwnsProject(old(db.projects), user, e.projectId.value) ==> r == Err(NotFound))
      && (OwnsProject(old(db.projects), user, e.projectId.value) ==>
            && (s > now ==> r == Err(StartInFuture))
            && (s <= now && e.end.Some? && e.end.value < s ==> r == Err(EndBeforeStart))
            && (s <= now && e.end.Some? && s <= e.end.value && e.end.value > now ==> r == Err(EndInFuture))
            && (EntryTimesAcceptable(e, now) && EntryOverlaps(old(db.logs), user, s, e.end) ==> r == Err(Overlap)))
    ensures r.Ok? <==>
      && EntryValidates(old(db.projects), e) && OwnsProject(old(db.projects), user, e.projectId.value)
      && EntryTimesAcceptable(e, now) && !EntryOverlaps(old(db.logs), user, e.start.value, e.end)
      && TagWritable(e.tag)
      && Write(EntryRow(old(db.nextLogId), user, old(db.projects)[e.projectId.value].clientId, e)).Some?
    ensures
      && EntryValidates(old(db.projects), e) && OwnsProject(old(db.projects), user, e.projectId.value)
      && EntryTimesAcceptable(e, now) && !EntryOverlaps(old(db.logs), user, e.start.value, e.end)
      && r.Err?
      ==> r == Err(StorageError)
    ensures r.Ok? ==> r.value == Write(EntryRow(old(db.nextLogId), user, old(db.projects)[e.projectId.value].clientId, e)).value
    ensures r.Ok? ==> r.value.hours == (if e.end.Some? then Some(DerivedHours(e.start.value, e.end.value)) else None)
    ensures r.Ok? ==> db.logs == old(db.logs) + [r.value] && db.nextLogId == old(db.nextLogId) + 1
    ensures r.Ok? ==>
      && db.clients == old(db.clients) && db.projects == old(db.projects)
      && db.nextClientId == old(db.nextClientId) && db.nextProjectId == old(db.nextProjectId)
  {
    if !EntryValidates(db.projects, e) {
      return Err(Invalid);
    }
    var projectId, s := e.projectId.value, e.start.value;
    if !OwnsProject(db.projects, user, projectId) {
      return Err(NotFound);
    }
    if s > now {
      return Err(StartInFuture);
    }
    if e.end.Some? {
      if e.end.value < s {
        return Err(EndBeforeStart);
      }
      if e.end.value > now {
        return Err(EndInFuture);
      }
    }
    if EntryOverlaps(db.logs, user, s, e.end) {
      return Err(Overlap);
    }
    if !TagWritable(e.tag) {
      return Err(StorageError);
    }
    var written := Write(EntryRow(db.nextLogId, user, db.projects[projectId].clientId, e));
    if written.None? {
      return Err(StorageError);
    }
    AppendKeepsAscending(db.logs, written.value, db.nextLogId);
    db.logs := db.logs + [written.value];
    db.nextLogId := db.nextLogId + 1;
    r := Ok(written.value);
  }

  // ----- show -----

  function Show(db: Database, user: nat, id: nat): (r: Result<TimeLog>)
    reads db
    ensures r.Err? <==> r == Err(NotFound)
    ensures r.Ok? <==> exists i :: 0 <= i < |db.logs| && db.logs[i].id == id && db.logs[i].userId == user
    ensures r.Ok? ==> r.value in db.logs && r.value.id == id && r.value.userId == user
  {
    var i := FindLog(db.logs, user, id);
    if i.None? then Err(NotFound) else Ok(db.logs[i.value])
  }

  // ----- update -----

  /**
   * The fields of an update request. `start` and `end` are None when absent or
   * empty; `description` and `tag` carry the raw request value when present.
   */
  datatype LogChanges = LogChanges(start: Option<int>, end: Option<int>, description: Option<string>, tag: Option<string>)

  /**
   * The row as `update` assigns it before `save()`: a non-empty start and
   * description, and a tag only when it is one of the enum's two spellings.
   * The request's `end_time` is validated but never assigned.
   */
  function ChangedRow(l: TimeLog, c: LogChanges): (r: TimeLog)
    ensures r.start == c.start.GetOr(l.start)
    ensures r.description == if Filled(c.description) then c.description.value else l.description
    ensures r.tag == if c.tag.Some? && ParseTag(c.tag.value).Some? then ParseTag(c.tag.value) else l.tag
    ensures r.(start := l.start, description := l.description, tag := l.tag) == l
  {
    var desc := if Filled(c.description) then c.description.value else l.description;
    var tag := if c.tag.Some? && ParseTag(c.tag.value).Some? then ParseTag(c.tag.value) else l.tag;
    l.(start := c.start.GetOr(l.start), description := desc, tag := tag)
  }

  /** An update that omits the tag, or sends one the column does not know, keeps the stored tag. */
  lemma UnknownTagIgnored(l: TimeLog, c: LogChanges)
    requires c.tag.None? || (c.tag.value != "billable" && c.tag.value != "non-billable")
    ensures ChangedRow(l, c).tag == l.tag
  {
  }

  /** `update` never closes or reopens a log: the stored end survives any request. */
  lemma UpdateKeepsEnd(l: TimeLog, c: LogChanges)
    ensures ChangedRow(l, c).end == l.end
  {
  }

  /** The checks on the times, in order, against the start as already assigned. */
  predicate UpdateTimesAcceptable(l: TimeLog, c: LogChanges, now: int) {
    && (c.start.Some? ==> c.start.value <= now)
    && (c.end.Some? ==> c.start.GetOr(l.start) <= c.end.value <= now)
  }

  /**
   * `update`'s overlap query, other rows of the user only. With both times in the
   * request it tests the new start against the STORED end (a null stored end
   * makes the SQL compare with "", which matches nothing); with a start alone it
   * runs only for a running log; otherwise there is no query.
   */
  predicate UpdateOverlaps(logs: seq<TimeLog>, user: nat, stored: TimeLog, c: LogChanges) {
    if c.start.Some? && c.end.Some? then
      && stored.end.Some?
      && exists j :: 0 <= j < |logs| && logs[j].userId == user && logs[j].id != stored.id
           && ConflictsClosed(logs[j], c.start.value, stored.end.value)
    else if c.start.Some? && stored.end.None? then
      exists j :: 0 <= j < |logs| && logs[j].userId == user && logs[j].id != stored.id
        && ConflictsOpen(logs[j], c.start.value)
    else
      false
  }

  /** A log is never tested against itself. */
  lemma UpdateIgnoresOwnRow(logs: seq<TimeLog>, user: nat, stored: TimeLog, c: LogChanges)
    requires forall j :: 0 <= j < |logs| && logs[j].userId == user ==> logs[j].id == stored.id
    ensures !UpdateOverlaps(logs, user, stored, c)
  {
  }

  method Update(db: Database, user: nat, id: nat, now: int, c: LogChanges) returns (r: Result<TimeLog>)
    requires db.Valid()
    modifies db
    ensures db.Valid()
    ensures r.Err? ==> unchanged(db)
    ensures FindLog(old(db.logs), user, id).None? ==> r == Err(NotFound)
    ensures FindLog(old(db.logs), user, id).Some? ==>
      var i := FindLog(old(db.logs), user, id).value;
      var l := old(db.logs)[i];
      var s := c.start.GetOr(l.start);
      var written := Write(ChangedRow(l, c));
      && (c.start.Some? && c.start.value > now ==> r == Err(StartInFuture))
      && ((c.start.Some? ==> c.start.value <= now) && c.end.Some? && c.end.value < s ==> r == Err(EndBeforeStart))
      && ((c.start.Some? ==> c.start.value <= now) && c.end.Some? && s <= c.end.value && c.end.value > now ==>
            r == Err(EndInFuture))
      && (UpdateTimesAcceptable(l, c, now) && UpdateOverlaps(old(db.logs), user, l, c) ==> r == Err(Overlap))
      && (UpdateTimesAcceptable(l, c, now) && !UpdateOverlaps(old(db.logs), user, l, c) ==>
            && (written.None? ==> r == Err(StorageError))
            && (written.Some? ==> r == Ok(written.value) && db.logs == old(db.logs)[i := written.value]))
    ensures r.Ok? ==>
      && db.clients == old(db.clients) && db.projects == old(db.projects) && |db.logs| == |old(db.logs)|
      && db.nextClientId == old(db.nextClientId) && db.nextProjectId == old(db.nextProjectId)
      && db.nextLogId == old(db.nextLogId)
  {
    var found := FindLog(db.logs, user, id);
    if found.None? {
      return Err(NotFound);
    }
    var i := found.value;
    var l := db.logs[i];
    if c.start.Some? && c.start.value > now {
      return Err(StartInFuture);
    }
    var s := c.start.GetOr(l.start);
    if c.end.Some? {
      if c.end.value < s {
        return Err(EndBeforeStart);
      }
      if c.end.value > now {
        return Err(EndInFuture);
      }
    }
    if UpdateOverlaps(db.logs, user, l, c) {
      return Err(Overlap);
    }
    var written := Write(ChangedRow(l, c));
    if written.None? {
      return Err(StorageError);
    }
    db.logs := db.logs[i := written.value];
    r := Ok(written.value);
  }

  // ----- destroy -----

  method Destroy(db: Database, user: nat, id: nat) returns (r: Result<()>)
    requires db.Valid()
    modifies db
    ensures db.Valid()
    ensures FindLog(old(db.logs), user, id).None? ==> r == Err(NotFound) && unchanged(db)
    ensures FindLog(old(db.logs), user, id).Some? ==>
      var i := FindLog(old(db.logs), user, id).value;
      r == Ok(()) && db.logs == old(db.logs)[..i] + old(db.logs)[i + 1..]
    ensures db.clients == old(db.clients) && db.projects == old(db.projects)
      && db.nextClientId == old(db.nextClientId) && db.nextProjectId == old(db.nextProjectId)
      && db.nextLogId == old(db.nextLogId)
  {
    var found := FindLog(db.logs, user, id);
    if found.None? {
      return Err(NotFound);
    }
    var i := found.value;
    RemoveKeepsAscending(db.logs, i);
    db.logs := db.logs[..i] + db.logs[i + 1..];
    r := Ok(());
  }
}
