/**
 * `ProjectController`: a project's client must be one of its owner's clients,
 * updates are partial, and deleting a project deletes its time logs in the
 * same transaction.
 */
module ProjectController {
  import opened Wrappers
  import opened Text
  import opened Migration
  import opened Tables

  /** The request fields the actions read; absent (or, for update, empty) fields are None. */
  datatype ProjectRequest = ProjectRequest(
    title: Option<string>,
    description: Option<string>,
    status: Option<string>,
    deadline: Option<int>,
    clientId: Option<nat>)

  /** The rule `in:active,completed`. */
  function ParseStatus(s: string): (r: Option<ProjectStatus>)
    ensures r == Some(Active) <==> s == "active"
    ensures r == Some(Completed) <==> s == "completed"
    ensures r.None? <==> s != "active" && s != "completed"
  {
    if s == "active" then Some(Active) else if s == "completed" then Some(Completed) else None
  }

  /** `title` required and at most 255 characters, `status` required and known, `client_id` required and an existing client. */
  predicate StoreValidates(clients: map<nat, Client>, req: ProjectRequest) {
    && req.title.Some? && req.title.value != "" && |req.title.value| <= 255
    && req.status.Some? && ParseStatus(req.status.value).Some?
    && req.clientId.Some? && req.clientId.value in clients
  }

  method Store(db: Database, user: nat, req: ProjectRequest) returns (r: Result<nat>)
    requires db.Valid()
    modifies db
    ensures db.Valid()
    ensures r.Err? ==> unchanged(db)
    ensures !StoreValidates(old(db.clients), req) ==> r == Err(Invalid)
    ensures StoreValidates(old(db.clients), req) && !OwnsClient(old(db.clients), user, req.clientId.value)
      ==> r == Err(ClientNotOwned)
    ensures r.Ok? <==> StoreValidates(old(db.clients), req) && OwnsClient(old(db.clients), user, req.clientId.value)
    ensures r.Ok? ==>
      && r.value == old(db.nextProjectId) && r.value !in old(db.projects)
      && db.projects == old(db.projects)[r.value := Project(user, req.clientId.value, req.title.value, req.description,
                                                            ParseStatus(req.status.value).value, req.deadline)]
      && db.nextProjectId == old(db.nextProjectId) + 1
      && db.clients == old(db.clients) && db.logs == old(db.logs)
      && db.nextClientId == old(db.nextClientId) && db.nextLogId == old(db.nextLogId)
  {
    if !StoreValidates(db.clients, req) {
      return Err(Invalid);
    }
    if !OwnsClient(db.clients, user, req.clientId.value) {
      return Err(ClientNotOwned);
    }
    var id := db.nextProjectId;
    var project := Project(user, req.clientId.value, req.title.value, req.description,
                           ParseStatus(req.status.value).value, req.deadline);
    db.projects := db.projects[id := project];
    db.nextProjectId := id + 1;
    r := Ok(id);
  }

  function Show(db: Database, user: nat, id: nat): (r: Result<Project>)
    reads db
    ensures r.Err? <==> !OwnsProject(db.projects, user, id)
    ensures r.Err? ==> r.error == NotFound
    ensures r.Ok? ==> r.value == db.projects[id] && r.value.userId == user
  {
    if OwnsProject(db.projects, user, id) then Ok(db.projects[id]) else Err(NotFound)
  }

  /**
   * The project as `update` assigns it: title, description and deadline when
   * not `empty()`, status only when it is `active` or `completed`, and the
   * client when given (its ownership is checked by the caller).
   */
  function ChangedProject(p: Project, req: ProjectRequest): (r: Project)
    ensures r.userId == p.userId
    ensures r.title == if Filled(req.title) then req.title.value else p.title
    ensures r.description == if Filled(req.description) then req.description else p.description
    ensures r.status == if req.status.Some? && ParseStatus(req.status.value).Some? then ParseStatus(req.status.value).value else p.status
    ensures r.deadline == if req.deadline.Some? then req.deadline else p.deadline
    ensures r.clientId == req.clientId.GetOr(p.clientId)
  {
    Project(
      p.userId,
      req.clientId.GetOr(p.clientId),
      if Filled(req.title) then req.title.value else p.title,
      if Filled(req.description) then req.description else p.description,
      if req.status.Some? && ParseStatus(req.status.value).Some? then ParseStatus(req.status.value).value else p.status,
      if req.deadline.Some? then req.deadline else p.deadline)
  }

  method Update(db: Database, user: nat, id: nat, req: ProjectRequest) returns (r: Result<Project>)
    requires db.Valid()
    modifies db
    ensures db.Valid()
    ensures r.Err? ==> unchanged(db)
    ensures !OwnsProject(old(db.projects), user, id) ==> r == Err(NotFound)
    ensures (OwnsProject(old(db.projects), user, id) && req.clientId.Some?
             && !OwnsClient(old(db.clients), user, req.clientId.value)) ==> r == Err(ClientNotOwned)
    ensures r.Ok? <==>
      OwnsProject(old(db.projects), user, id) && (req.clientId.Some? ==> OwnsClient(old(db.clients), user, req.clientId.value))
    ensures r.Ok? ==>
      && r.value == ChangedProject(old(db.projects)[id], req)
      && db.projects == old(db.projects)[id := r.value]
      && db.clients == old(db.clients) && db.logs == old(db.logs)
      && db.nextClientId == old(db.nextClientId) && db.nextProjectId == old(db.nextProjectId)
      && db.nextLogId == old(db.nextLogId)
  {
    if !OwnsProject(db.projects, user, id) {
      return Err(NotFound);
    }
    if req.clientId.Some? && !OwnsClient(db.clients, user, req.clientId.value) {
      return Err(ClientNotOwned);
    }
    var changed := ChangedProject(db.projects[id], req);
    assert forall i :: 0 <= i < |db.logs| ==> OwnsProject(db.projects[id := changed], db.logs[i].userId, db.logs[i].projectId);
    db.projects := db.projects[id := changed];
    r := Ok(changed);
  }

  /** `ProjectTimeLog::where('project_id', $id)->delete()`: the table without that project's rows, in the same order. */
  function WithoutProject(logs: seq<TimeLog>, projectId: nat): (r: seq<TimeLog>)
    ensures forall l :: l in r <==> l in logs && l.projectId != projectId
    ensures |r| <= |logs|
    ensures IdsAscending(logs) ==> IdsAscending(r)
  {
    if logs == [] then []
    else
      var rest := WithoutProject(logs[1..], projectId);
      assert forall l :: l in logs <==> l == logs[0] || l in logs[1..];
      TailAscending(logs);
      if logs[0].projectId == projectId then rest
      else
        KeepFirstAscending(logs, rest);
        [logs[0]] + rest
  }

  lemma TailAscending(logs: seq<TimeLog>)
    requires logs != []
    ensures IdsAscending(logs) ==> IdsAscending(logs[1..]) && forall l :: l in logs[1..] ==> logs[0].id < l.id
  {
    if IdsAscending(logs) {
      forall l | l in logs[1..] ensures logs[0].id < l.id {
        var k :| 0 <= k < |logs[1..]| && logs[1..][k] == l;
        assert logs[k + 1] == l;
      }
    }
  }

  /** Keeping the first row in front of an ascending selection of the later ones stays ascending. */
  lemma KeepFirstAscending(logs: seq<TimeLog>, rest: seq<TimeLog>)
    requires logs != []
    requires forall l :: l in rest ==> l in logs[1..]
    requires IdsAscending(logs[1..]) ==> IdsAscending(rest)
    ensures IdsAscending(logs) ==> IdsAscending([logs[0]] + rest)
  {
    if IdsAscending(logs) {
      TailAscending(logs);
      var r := [logs[0]] + rest;
      forall a, b | 0 <= a < b < |r| ensures r[a].id < r[b].id {
        assert r[b] == rest[b - 1];
        if a > 0 {
          assert r[a] == rest[a - 1];
        } else {
          assert rest[b - 1] in rest;
        }
      }
    }
  }

  /** Deleting a project's rows leaves no row of it and keeps every other row. */
  lemma {:induction false} WithoutProjectCount(logs: seq<TimeLog>, projectId: nat)
    ensures |WithoutProject(logs, projectId)| == |logs| - CountOfProject(logs, projectId)
  {
    if logs != [] {
      WithoutProjectCount(logs[1..], projectId);
    }
  }

  function CountOfProject(logs: seq<TimeLog>, projectId: nat): nat {
    if logs == [] then 0 else (if logs[0].projectId == projectId then 1 else 0) + CountOfProject(logs[1..], projectId)
  }

  /**
   * The transaction: delete the project's time logs, then the project, then
   * commit. `fails` stands for an exception inside it; the rollback leaves both
   * tables as they were.
   */
  method Destroy(db: Database, user: nat, id: nat, fails: bool) returns (r: Result<()>)
    requires db.Valid()
    modifies db
    ensures db.Valid()
    ensures r.Err? ==> unchanged(db)
    ensures !OwnsProject(old(db.projects), user, id) ==> r == Err(NotFound)
    ensures OwnsProject(old(db.projects), user, id) && fails ==> r == Err(StorageError)
    ensures r.Ok? <==> OwnsProject(old(db.projects), user, id) && !fails
    ensures r.Ok? ==>
      && db.projects == old(db.projects) - {id}
      && db.logs == WithoutProject(old(db.logs), id)
      && db.clients == old(db.clients)
      && db.nextClientId == old(db.nextClientId) && db.nextProjectId == old(db.nextProjectId)
      && db.nextLogId == old(db.nextLogId)
  {
    if !OwnsProject(db.projects, user, id) {
      return Err(NotFound);
    }
    if fails {
      return Err(StorageError);
    }
    var remaining := WithoutProject(db.logs, id);
    forall i | 0 <= i < |remaining|
      ensures remaining[i].id < db.nextLogId && LogValid(remaining[i], db.projects - {id}, db.clients)
    {
      assert remaining[i] in db.logs;
    }
    db.logs := remaining;
    db.projects := db.projects - {id};
    r := Ok(());
  }
}
