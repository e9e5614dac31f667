/**
 * The scheduled command `app:check-work-hour-for-user`: find the users whose
 * hours today reach 8 and dispatch one notification per user and day,
 * remembering in the cache who has been notified.
 */
module WorkHourCheck {
  import opened Calendar
  import opened Migration

  /** Eight hours, in hundredths. */
  const Threshold: int := 800

  /** `SUM(hours)` over the user's rows that started on `today`; a running row's null hours add nothing. */
  function DayTotal(logs: seq<TimeLog>, u: nat, today: int): int {
    if logs == [] then 0
    else
      var own := if logs[0].userId == u && DayOf(logs[0].start) == today then logs[0].hours.GetOr(0) else 0;
      own + DayTotal(logs[1..], u, today)
  }

  lemma {:induction false} DayTotalAppend(a: seq<TimeLog>, b: seq<TimeLog>, u: nat, today: int)
    ensures DayTotal(a + b, u, today) == DayTotal(a, u, today) + DayTotal(b, u, today)
  {
    if a == [] {
      assert a + b == b;
    } else {
      assert (a + b)[0] == a[0];
      assert (a + b)[1..] == a[1..] + b;
      DayTotalAppend(a[1..], b, u, today);
    }
  }

  /** Starting a timer adds a row with null hours, which leaves every day total as it was. */
  lemma RunningLogAddsNothing(logs: seq<TimeLog>, l: TimeLog, u: nat, today: int)
    requires l.hours.None?
    ensures DayTotal(logs + [l], u, today) == DayTotal(logs, u, today)
  {
    DayTotalAppend(logs, [l], u, today);
  }

  /** A user with hours today has a row that started today. */
  lemma {:induction false} TotalNeedsLog(logs: seq<TimeLog>, u: nat, today: int)
    requires DayTotal(logs, u, today) != 0
    ensures exists l :: l in logs && l.userId == u && DayOf(l.start) == today
  {
    if logs[0].userId == u && DayOf(logs[0].start) == today {
      assert logs[0] in logs;
    } else {
      TotalNeedsLog(logs[1..], u, today);
      var l :| l in logs[1..] && l.userId == u && DayOf(l.start) == today;
      assert l in logs;
    }
  }

  predicate Distinct(users: seq<nat>) {
    forall i, j :: 0 <= i < j < |users| ==> users[i] != users[j]
  }

  /**
   * What the grouped query may return: each user whose total today is at
   * least 8 hours (`HAVING total_hours >= 8`), once, in an order the database chooses.
   */
  ghost predicate QueryResult(users: seq<nat>, logs: seq<TimeLog>, today: int) {
    && Distinct(users)
    && forall u: nat :: u in users <==> DayTotal(logs, u, today) >= Threshold
  }

  /** The users with a row that started today, each once, in table order. */
  function UsersToday(logs: seq<TimeLog>, today: int): (r: seq<nat>)
    ensures Distinct(r)
    ensures forall u :: u in r <==> exists l :: l in logs && l.userId == u && DayOf(l.start) == today
  {
    if logs == [] then []
    else
      var rest := UsersToday(logs[..|logs| - 1], today);
      var l := logs[|logs| - 1];
      assert logs == logs[..|logs| - 1] + [l];
      if DayOf(l.start) == today && l.userId !in rest then rest + [l.userId] else rest
  }

  function Over(users: seq<nat>, logs: seq<TimeLog>, today: int): (r: seq<nat>)
    requires Distinct(users)
    ensures Distinct(r)
    ensures forall u :: u in r <==> u in users && DayTotal(logs, u, today) >= Threshold
  {
    if users == [] then []
    else
      var rest := Over(users[1..], logs, today);
      assert users == [users[0]] + users[1..];
      if DayTotal(logs, users[0], today) >= Threshold then [users[0]] + rest else rest
  }

  /** The query always has an answer: the users over the threshold in table order. */
  lemma QueryAnswerable(logs: seq<TimeLog>, today: int)
    ensures QueryResult(Over(UsersToday(logs, today), logs, today), logs, today)
  {
    forall u: nat | DayTotal(logs, u, today) >= Threshold
      ensures u in UsersToday(logs, today)
    {
      TotalNeedsLog(logs, u, today);
    }
  }

  /** The users the loop dispatches: those in `users` whose key for today was not yet cached. */
  function Newly(users: seq<nat>, keys: set<(nat, int)>, today: int): (r: seq<nat>)
    ensures forall u :: u in r <==> u in users && (u, today) !in keys
    ensures |r| <= |users|
  {
    if users == [] then []
    else
      var rest := Newly(users[1..], keys, today);
      assert users == [users[0]] + users[1..];
      if (users[0], today) !in keys then [users[0]] + rest else rest
  }

  /** The cache keys `notified_{user}_{today}` for a list of users. */
  function Marked(users: seq<nat>, today: int): (r: set<(nat, int)>)
    ensures forall u, d :: (u, d) in r <==> u in users && d == today
  {
    set u | u in users :: (u, today)
  }

  /** A second run the same day notifies no one the first run covered, whatever their totals are now. */
  lemma NotifiedOncePerDay(first: seq<nat>, second: seq<nat>, keys: set<(nat, int)>, today: int)
    ensures forall u :: u in first ==> u !in Newly(second, keys + Marked(first, today), today)
  {
  }

  /** Running twice on an unchanged table dispatches nothing the second time. */
  lemma SecondRunIsQuiet(users: seq<nat>, keys: set<(nat, int)>, today: int)
    ensures Newly(users, keys + Marked(users, today), today) == []
  {
    AllCachedQuiet(users, keys + Marked(users, today), today);
  }

  /** When every user's key is cached no one is dispatched. */
  lemma {:induction false} AllCachedQuiet(users: seq<nat>, keys: set<(nat, int)>, today: int)
    requires forall u :: u in users ==> (u, today) in keys
    ensures Newly(users, keys, today) == []
  {
    if users != [] {
      assert users[0] in users;
      assert forall u :: u in users[1..] ==> u in users;
      AllCachedQuiet(users[1..], keys, today);
    }
  }

  /** Only users whose hours today reach 8 are ever dispatched; the bound is inclusive. */
  lemma OnlyOverThreshold(users: seq<nat>, logs: seq<TimeLog>, keys: set<(nat, int)>, today: int, u: nat)
    requires QueryResult(users, logs, today)
    ensures u in Newly(users, keys, today) <==> DayTotal(logs, u, today) >= Threshold && (u, today) !in keys
  {
  }

  /** The cache: which `(user, day)` pairs have been notified. Expiry at the end of the day is not modelled. */
  class Cache {
    var keys: set<(nat, int)>

    constructor()
      ensures keys == {}
    {
      keys := {};
    }
  }

  /** The queue `SendDailyNotification` jobs are dispatched to. */
  class Dispatcher {
    var jobs: seq<nat>

    constructor()
      ensures jobs == []
    {
      jobs := [];
    }
  }

  /**
   * `handle`: for each selected user whose key for today is absent, dispatch a
   * notification and set the key.
   */
  method Handle(cache: Cache, queue: Dispatcher, logs: seq<TimeLog>, today: int, users: seq<nat>)
    requires QueryResult(users, logs, today)
    modifies cache, queue
    ensures cache.keys == old(cache.keys) + Marked(users, today)
    ensures queue.jobs == old(queue.jobs) + Newly(users, old(cache.keys), today)
  {
    if users == [] {
      return;
    }
    ghost var keys0, jobs0 := cache.keys, queue.jobs;
    var i := 0;
    while i < |users|
      invariant 0 <= i <= |users|
      invariant cache.keys == keys0 + Marked(users[..i], today)
      invariant queue.jobs == jobs0 + Newly(users[..i], keys0, today)
    {
      var u := users[i];
      assert users[..i + 1] == users[..i] + [u];
      NotYetSeen(users, i);
      JobStep(jobs0, keys0, users[..i], u, today, queue.jobs);
      MarkStep(keys0, users[..i], u, today, cache.keys);
      if (u, today) !in cache.keys {
        queue.jobs := queue.jobs + [u];
        cache.keys := cache.keys + {(u, today)};
      }
      i := i + 1;
    }
    assert users[..i] == users;
  }

  /** In a list without repeats, no user occurs before their own position. */
  lemma NotYetSeen(users: seq<nat>, i: nat)
    requires Distinct(users) && i < |users|
    ensures users[i] !in users[..i]
  {
    assert forall j :: 0 <= j < i ==> users[..i][j] == users[j] != users[i];
  }

  /** One pass of the loop on the queue: the user is dispatched iff their key was not cached at the start. */
  lemma JobStep(jobs0: seq<nat>, keys0: set<(nat, int)>, done: seq<nat>, u: nat, today: int, jobs: seq<nat>)
    requires jobs == jobs0 + Newly(done, keys0, today)
    ensures (u, today) !in keys0 ==> jobs + [u] == jobs0 + Newly(done + [u], keys0, today)
    ensures (u, today) in keys0 ==> jobs == jobs0 + Newly(done + [u], keys0, today)
  {
    NewlyAppend(done, u, keys0, today);
    if (u, today) !in keys0 {
      assert jobs + [u] == jobs0 + (Newly(done, keys0, today) + [u]);
    }
  }

  /** One pass of the loop on the cache: the key is new iff it was not cached at the start, and after the pass the cache covers one more user. */
  lemma MarkStep(keys0: set<(nat, int)>, done: seq<nat>, u: nat, today: int, keys: set<(nat, int)>)
    requires keys == keys0 + Marked(done, today) && u !in done
    ensures (u, today) in keys <==> (u, today) in keys0
    ensures keys + {(u, today)} == keys0 + Marked(done + [u], today)
    ensures (u, today) in keys ==> keys == keys0 + Marked(done + [u], today)
  {
    assert Marked(done + [u], today) == Marked(done, today) + {(u, today)};
  }

  lemma {:induction false} NewlyAppend(users: seq<nat>, u: nat, keys: set<(nat, int)>, today: int)
    ensures Newly(users + [u], keys, today) == Newly(users, keys, today) + (if (u, today) !in keys then [u] else [])
  {
    if users == [] {
      assert users + [u] == [u];
    } else {
      assert (users + [u])[0] == users[0];
      assert (users + [u])[1..] == users[1..] + [u];
      NewlyAppend(users[1..], u, keys, today);
    }
  }
}
