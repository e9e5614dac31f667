/**
 * The entity store: the `clients`, `projects` and `project_time_logs` tables,
 * the outcome classification every controller action returns, and the
 * ownership lookups shared by the controllers.
 */
module Tables {
  import opened Wrappers
  import opened Text
  import opened Migration

  datatype ProjectStatus = Active | Completed

  datatype Client = Client(userId: nat, name: string, email: string, contactPerson: string)

  /** `deadline` is a day number. */
  datatype Project = Project(
    userId: nat,
    clientId: nat,
    title: string,
    description: Option<string>,
    status: ProjectStatus,
    deadline: Option<int>)

  /** Why an action was refused; `HttpStatus` gives the code the controller answers with. */
  datatype Refusal =
    | Invalid            // the Validator failed (422)
    | NotFound           // absent or owned by someone else (404)
    | OngoingLog         // start: the project's timer is running (400)
    | NoOngoingLog       // stop: the project's timer is not running (400)
    | LaterLogExists     // stop: a log of the user starts after the running one (400)
    | StartInFuture      // 422
    | EndBeforeStart     // 422
    | EndInFuture        // 422
    | Overlap            // 422
    | EmailTaken         // 422
    | HasProjects        // client destroy while projects reference it (422)
    | ClientNotOwned     // project store/update with someone else's client (422)
    | StorageError       // the database refused the statement (500)

  function HttpStatus(e: Refusal): int {
    match e
    case NotFound => 404
    case OngoingLog | NoOngoingLog | LaterLogExists => 400
    case StorageError => 500
    case _ => 422
  }

  datatype Result<+T> = Ok(value: T) | Err(error: Refusal)

  predicate OwnsClient(clients: map<nat, Client>, user: nat, id: nat) {
    id in clients && clients[id].userId == user
  }

  predicate OwnsProject(projects: map<nat, Project>, user: nat, id: nat) {
    id in projects && projects[id].userId == user
  }

  /** Client emails are stored lower-cased, are unique per owner, and ids come from the counter. */
  ghost predicate ClientsValid(clients: map<nat, Client>, next: nat) {
    && (forall c :: c in clients ==> c < next && IsLowerCase(clients[c].email))
    && (forall c1, c2 :: c1 in clients && c2 in clients && c1 != c2 && clients[c1].userId == clients[c2].userId
          ==> clients[c1].email != clients[c2].email)
  }

  /** Every project's client exists and has the project's owner. */
  ghost predicate ProjectsValid(projects: map<nat, Project>, clients: map<nat, Client>, next: nat) {
    forall p :: p in projects ==> p < next && OwnsClient(clients, projects[p].userId, projects[p].clientId)
  }

  /** Table order is id order, ids come from the counter, and ids never repeat. */
  ghost predicate IdsAscending(logs: seq<TimeLog>) {
    forall i, j :: 0 <= i < j < |logs| ==> logs[i].id < logs[j].id
  }

  /** A row references its owner's project and client, and its hours are the triggers' output. */
  ghost predicate LogValid(l: TimeLog, projects: map<nat, Project>, clients: map<nat, Client>) {
    && OwnsProject(projects, l.userId, l.projectId)
    && OwnsClient(clients, l.userId, l.clientId)
    && HoursDerived(l)
  }

  ghost predicate LogsValid(logs: seq<TimeLog>, projects: map<nat, Project>, clients: map<nat, Client>, next: nat) {
    && IdsAscending(logs)
    && (forall i :: 0 <= i < |logs| ==> logs[i].id < next && LogValid(logs[i], projects, clients))
  }

  class Database {
    var clients: map<nat, Client>
    var projects: map<nat, Project>
    var logs: seq<TimeLog>
    var nextClientId: nat
    var nextProjectId: nat
    var nextLogId: nat

    ghost predicate Valid()
      reads this
    {
      && ClientsValid(clients, nextClientId)
      && ProjectsValid(projects, clients, nextProjectId)
      && LogsValid(logs, projects, clients, nextLogId)
    }

    /** Empty tables; auto-increment starts at 1. */
    constructor ()
      ensures Valid()
      ensures clients == map[] && projects == map[] && logs == []
      ensures nextClientId == 1 && nextProjectId == 1 && nextLogId == 1
    {
      clients, projects, logs := map[], map[], [];
      nextClientId, nextProjectId, nextLogId := 1, 1, 1;
    }
  }

  /** The first row in table order satisfying `p`: what an un-ordered `->first()` returns. */
  function FirstWhere(logs: seq<TimeLog>, p: TimeLog -> bool): (r: Option<nat>)
    ensures r.Some? ==> r.value < |logs| && p(logs[r.value])
    ensures r.Some? ==> forall j :: 0 <= j < r.value ==> !p(logs[j])
    ensures r.None? <==> forall j :: 0 <= j < |logs| ==> !p(logs[j])
  {
    if |logs| == 0 then None
    else if p(logs[0]) then Some(0)
    else
      var rest := FirstWhere(logs[1..], p);
      assert forall j :: 1 <= j < |logs| ==> logs[j] == logs[1..][j - 1];
      if rest.None? then None else Some(rest.value + 1)
  }

  /** A log row `id` owned by `user`: `ProjectTimeLog::where('id', $id)->where('user_id', $user_id)->first()`. */
  function FindLog(logs: seq<TimeLog>, user: nat, id: nat): (r: Option<nat>)
    ensures r.Some? ==> r.value < |logs| && logs[r.value].id == id && logs[r.value].userId == user
    ensures r.None? <==> forall j :: 0 <= j < |logs| ==> !(logs[j].id == id && logs[j].userId == user)
  {
    FirstWhere(logs, (l: TimeLog) => l.id == id && l.userId == user)
  }

  /** Removing a row keeps the table in id order. */
  lemma RemoveKeepsAscending(logs: seq<TimeLog>, i: nat)
    requires i < |logs| && IdsAscending(logs)
    ensures IdsAscending(logs[..i] + logs[i + 1..])
  {
    var r := logs[..i] + logs[i + 1..];
    forall a, b | 0 <= a < b < |r| ensures r[a].id < r[b].id {
      var a', b' := if a < i then a else a + 1, if b < i then b else b + 1;
      assert r[a] == logs[a'] && r[b] == logs[b'];
    }
  }

  /** Appending a row with the next id keeps the table in id order. */
  lemma AppendKeepsAscending(logs: seq<TimeLog>, l: TimeLog, next: nat)
    requires IdsAscending(logs) && (forall i :: 0 <= i < |logs| ==> logs[i].id < next)
    requires l.id == next
    ensures IdsAscending(logs + [l])
  {
  }
}
