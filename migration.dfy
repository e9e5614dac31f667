/**
 * The `project_time_logs` table: its row, the domains of its `tag` and `hours`
 * columns, and the two BEFORE INSERT / BEFORE UPDATE triggers that derive `hours`.
 */
module Migration {
  import opened Wrappers

  /** The `tag` enum column. */
  datatype Tag = Billable | NonBillable

  /** One row. `end == None` is a running timer; `hours` is in hundredths of an hour. */
  datatype TimeLog = TimeLog(
    id: nat,
    userId: nat,
    projectId: nat,
    clientId: nat,
    start: int,
    end: Option<int>,
    description: string,
    hours: Option<int>,
    tag: Option<Tag>)

  function TagName(t: Tag): string {
    match t
    case Billable => "billable"
    case NonBillable => "non-billable"
  }

  /** The strings the enum column accepts, and the value each stands for. */
  function ParseTag(s: string): (r: Option<Tag>)
    ensures r.Some? <==> s == "billable" || s == "non-billable"
    ensures r.Some? ==> TagName(r.value) == s
  {
    if s == "billable" then Some(Billable)
    else if s == "non-billable" then Some(NonBillable)
    else None
  }

  lemma ParseTagName(t: Tag)
    ensures ParseTag(TagName(t)) == Some(t)
  {
  }

  /** An optional request tag that the enum column accepts: absent, or one of its two spellings. */
  predicate TagWritable(s: Option<string>) {
    s.None? || ParseTag(s.value).Some?
  }

  /** `isset($request->tag) ? $request->tag : null`, as stored. */
  function TagValue(s: Option<string>): (r: Option<Tag>)
    requires TagWritable(s)
    ensures r.None? <==> s.None?
    ensures r.Some? ==> TagName(r.value) == s.value
  {
    if s.None? then None else ParseTag(s.value)
  }

  /** `TIMESTAMPDIFF(MINUTE, s, e)`: whole minutes from `s` to `e`, truncated toward zero. */
  function WholeMinutes(s: int, e: int): (m: int)
    ensures s <= e ==> 0 <= m && 60 * m <= e - s < 60 * m + 60
    ensures e < s ==> m <= 0 && 60 * -m <= s - e < 60 * -m + 60
  {
    if s <= e then (e - s) / 60 else -((s - e) / 60)
  }

  /**
   * `n / d` rounded to an integer, halves away from zero: MySQL `ROUND` on a
   * DECIMAL and PHP `round`. The result is the nearest integer; a tie goes up for
   * a non-negative `n` and down for a negative one.
   */
  function RoundHalfAway(n: int, d: int): (r: int)
    requires d > 0
    ensures n >= 0 ==> -d <= 2 * (n - d * r) < d
    ensures n < 0 ==> -d < 2 * (n - d * r) <= d
  {
    if n >= 0 then (2 * n + d) / (2 * d) else -((2 * -n + d) / (2 * d))
  }

  /**
   * `ROUND(m / 60, 2)` in hundredths. MySQL computes `m / 60` to four decimal
   * places (`div_precision_increment`) and then rounds that to two; the result is
   * nonetheless the hundredth nearest to the exact `m / 60`, with no tie to break.
   */
  function CentiHours(m: int): (r: int)
    ensures -30 < 60 * r - 100 * m < 30
  {
    var fourPlaces := RoundHalfAway(10000 * m, 60);
    var r := RoundHalfAway(fourPlaces, 100);
    // Each rounding is off by at most half a unit: 30 and 3000 parts in 6000 * r.
    assert -3030 <= 6000 * r - 10000 * m <= 3030;
    // 60 * r - 100 * m is a multiple of 20 of size at most 30.3.
    assert -1 <= 3 * r - 5 * m <= 1;
    r
  }

  /** Two readings of "the nearest hundredth" agree: there is only one. */
  lemma NearestHundredthUnique(m: int, r1: int, r2: int)
    requires -30 < 60 * r1 - 100 * m < 30
    requires -30 < 60 * r2 - 100 * m < 30
    ensures r1 == r2
  {
  }

  /** For whole minutes `m >= 0` the derived hours are `(5m + 1) / 3` hundredths. */
  lemma CentiHoursClosedForm(m: int)
    requires m >= 0
    ensures CentiHours(m) == (5 * m + 1) / 3
  {
    var q := (5 * m + 1) / 3;
    assert 3 * q <= 5 * m + 1 < 3 * q + 3;
    NearestHundredthUnique(m, CentiHours(m), q);
  }

  /** The hours the triggers derive from a start and an end. */
  function DerivedHours(s: int, e: int): int {
    CentiHours(WholeMinutes(s, e))
  }

  /** Derived hours see only whole minutes: the seconds past the last full minute do not count. */
  lemma DerivedHoursIgnoreSeconds(s: int, e: int)
    requires s <= e
    ensures DerivedHours(s, e) == DerivedHours(s, s + 60 * ((e - s) / 60))
  {
    var m := WholeMinutes(s, e);
    assert m == (e - s) / 60;
    assert WholeMinutes(s, s + 60 * m) == m;
  }

  /** Derived hours never decrease as the end moves later. */
  lemma DerivedHoursMonotone(s: int, e1: int, e2: int)
    requires e1 <= e2
    ensures DerivedHours(s, e1) <= DerivedHours(s, e2)
  {
    var m1, m2 := WholeMinutes(s, e1), WholeMinutes(s, e2);
    assert m1 <= m2;
    var r1, r2 := CentiHours(m1), CentiHours(m2);
    assert 60 * (r1 - r2) < 60 + 100 * (m1 - m2);
  }

  /** Exactly sixty minutes give 1.00 hour. */
  lemma OneHourIsOneHundred(s: int)
    ensures DerivedHours(s, s + 3600) == 100
  {
    assert WholeMinutes(s, s + 3600) == 60;
    CentiHoursClosedForm(60);
  }

  /** The largest magnitude `decimal(5,2)` holds: 999.99. */
  const MaxHours: int := 99999

  predicate FitsHoursColumn(h: Option<int>) {
    h.None? || -MaxHours <= h.value <= MaxHours
  }

  /**
   * The triggers: when `end_time` (and `start_time`, never null) is set, `hours`
   * is re-derived; when `end_time` is null, `hours` is left as it was.
   */
  function ApplyTriggers(row: TimeLog): (r: TimeLog)
    ensures r.end.Some? ==> r.hours == Some(DerivedHours(r.start, r.end.value))
    ensures r.end.None? ==> r.hours == row.hours
    ensures r.(hours := row.hours) == row
  {
    if row.end.Some? then row.(hours := Some(DerivedHours(row.start, row.end.value))) else row
  }

  /** Firing the triggers again changes nothing. */
  lemma ApplyTriggersIdempotent(row: TimeLog)
    ensures ApplyTriggers(ApplyTriggers(row)) == ApplyTriggers(row)
  {
  }

  /**
   * An INSERT or UPDATE under MySQL strict mode: the triggers run, and a derived
   * `hours` outside `decimal(5,2)` makes the statement fail (None).
   */
  function Write(row: TimeLog): (r: Option<TimeLog>)
    ensures r.Some? <==> FitsHoursColumn(ApplyTriggers(row).hours)
    ensures r.Some? ==> r.value == ApplyTriggers(row)
  {
    var t := ApplyTriggers(row);
    if FitsHoursColumn(t.hours) then Some(t) else None
  }

  /** A closed interval of fewer than 1000 hours (60000 minutes) always fits the column. */
  lemma ShortIntervalsFit(row: TimeLog)
    requires row.end.Some? && row.start <= row.end.value < row.start + 60000 * 60
    ensures Write(row).Some?
    ensures 0 <= Write(row).value.hours.value <= MaxHours
  {
    var m := WholeMinutes(row.start, row.end.value);
    assert 0 <= m < 60000;
    CentiHoursClosedForm(m);
  }

  /** The row invariant the triggers keep: hours is derived for a closed row, null for a running one, and fits. */
  predicate HoursDerived(l: TimeLog) {
    && l.hours == (if l.end.Some? then Some(DerivedHours(l.start, l.end.value)) else None)
    && FitsHoursColumn(l.hours)
  }

  /** A successful write of a row whose hours were null while running leaves it consistent. */
  lemma WriteDerives(row: TimeLog)
    requires row.end.None? ==> row.hours.None?
    requires Write(row).Some?
    ensures HoursDerived(Write(row).value)
  {
  }
}
