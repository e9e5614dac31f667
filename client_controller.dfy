/**
 * `ClientController`: clients are scoped to their owner, their emails are
 * lower-cased and unique per owner, and a client with projects cannot be deleted.
 */
module ClientController {
  import opened Wrappers
  import opened Text
  import opened Migration
  import opened Tables

  /** The request fields the actions read; absent fields are None. */
  datatype ClientRequest = ClientRequest(name: Option<string>, email: Option<string>, contactPerson: Option<string>)

  /** Laravel's `required` rule on a string field. */
  predicate Required(f: Option<string>) { f.Some? && f.value != "" }

  /** `name` required, `email` required and at most 255 characters, `contact_person` required. */
  predicate StoreValidates(req: ClientRequest) {
    Required(req.name) && Required(req.email) && |req.email.value| <= 255 && Required(req.contactPerson)
  }

  /**
   * Another client of `user` (other than `except`) already has `email`. Stored
   * emails are lower-case and the column's collation ignores case, so the
   * SQL equality is equality with the lower-cased request value.
   */
  predicate EmailInUse(clients: map<nat, Client>, user: nat, email: string, except: Option<nat>) {
    exists c :: c in clients && clients[c].userId == user && (except.None? || c != except.value)
      && clients[c].email == Lower(email)
  }

  method Store(db: Database, user: nat, req: ClientRequest) returns (r: Result<nat>)
    requires db.Valid()
    modifies db
    ensures db.Valid()
    ensures r.Err? ==> unchanged(db)
    ensures !StoreValidates(req) ==> r == Err(Invalid)
    ensures StoreValidates(req) && EmailInUse(old(db.clients), user, req.email.value, None) ==> r == Err(EmailTaken)
    ensures r.Ok? <==> StoreValidates(req) && !EmailInUse(old(db.clients), user, req.email.value, None)
    ensures r.Ok? ==>
      && r.value == old(db.nextClientId) && r.value !in old(db.clients)
      && db.clients == old(db.clients)[r.value := Client(user, req.name.value, Lower(req.email.value), req.contactPerson.value)]
      && db.nextClientId == old(db.nextClientId) + 1
      && db.projects == old(db.projects) && db.logs == old(db.logs)
      && db.nextProjectId == old(db.nextProjectId) && db.nextLogId == old(db.nextLogId)
  {
    var email := if req.email.Some? then Some(Lower(req.email.value)) else None;
    if !StoreValidates(req.(email := email)) {
      return Err(Invalid);
    }
    if EmailInUse(db.clients, user, email.value, None) {
      LowerIdempotent(req.email.value);
      return Err(EmailTaken);
    }
    LowerIdempotent(req.email.value);
    var id := db.nextClientId;
    db.clients := db.clients[id := Client(user, req.name.value, email.value, req.contactPerson.value)];
    db.nextClientId := id + 1;
    r := Ok(id);
  }

  function Show(db: Database, user: nat, id: nat): (r: Result<Client>)
    reads db
    ensures r.Err? <==> !OwnsClient(db.clients, user, id)
    ensures r.Err? ==> r.error == NotFound
    ensures r.Ok? ==> r.value == db.clients[id] && r.value.userId == user
  {
    if OwnsClient(db.clients, user, id) then Ok(db.clients[id]) else Err(NotFound)
  }

  /** The client as `update` assigns it: each of the three fields only when the request's value is not `empty()`. */
  function ChangedClient(c: Client, req: ClientRequest): (r: Client)
    ensures r.userId == c.userId
    ensures r.name == if Filled(req.name) then req.name.value else c.name
    ensures r.email == if Filled(req.email) then Lower(req.email.value) else c.email
    ensures r.contactPerson == if Filled(req.contactPerson) then req.contactPerson.value else c.contactPerson
  {
    Client(
      c.userId,
      if Filled(req.name) then req.name.value else c.name,
      if Filled(req.email) then Lower(req.email.value) else c.email,
      if Filled(req.contactPerson) then req.contactPerson.value else c.contactPerson)
  }

  /** An update request with no usable field leaves the client as it was. */
  lemma EmptyChangeIsIdentity(c: Client, req: ClientRequest)
    requires !Filled(req.name) && !Filled(req.email) && !Filled(req.contactPerson)
    ensures ChangedClient(c, req) == c
  {
  }

  method Update(db: Database, user: nat, id: nat, req: ClientRequest) returns (r: Result<Client>)
    requires db.Valid()
    modifies db
    ensures db.Valid()
    ensures r.Err? ==> unchanged(db)
    ensures !OwnsClient(old(db.clients), user, id) ==> r == Err(NotFound)
    ensures (OwnsClient(old(db.clients), user, id) && Filled(req.email)
             && EmailInUse(old(db.clients), user, req.email.value, Some(id))) ==> r == Err(EmailTaken)
    ensures r.Ok? <==>
      OwnsClient(old(db.clients), user, id) && !(Filled(req.email) && EmailInUse(old(db.clients), user, req.email.value, Some(id)))
    ensures r.Ok? ==>
      && r.value == ChangedClient(old(db.clients)[id], req)
      && db.clients == old(db.clients)[id := r.value]
      && db.projects == old(db.projects) && db.logs == old(db.logs)
      && db.nextClientId == old(db.nextClientId) && db.nextProjectId == old(db.nextProjectId)
      && db.nextLogId == old(db.nextLogId)
  {
    if !OwnsClient(db.clients, user, id) {
      return Err(NotFound);
    }
    if Filled(req.email) && EmailInUse(db.clients, user, req.email.value, Some(id)) {
      return Err(EmailTaken);
    }
    var changed := ChangedClient(db.clients[id], req);
    assert forall k :: k in db.projects ==> OwnsClient(db.clients[id := changed], db.projects[k].userId, db.projects[k].clientId);
    assert forall i :: 0 <= i < |db.logs| ==> OwnsClient(db.clients[id := changed], db.logs[i].userId, db.logs[i].clientId);
    db.clients := db.clients[id := changed];
    r := Ok(changed);
  }

  /** Some project, whoever owns it, has this client: `Project::where('client_id', $client->id)`. */
  predicate ClientHasProjects(projects: map<nat, Project>, id: nat) {
    exists p :: p in projects && projects[p].clientId == id
  }

  /** Some time log still carries this client id (the foreign key keeps the client). */
  predicate ClientHasLogs(logs: seq<TimeLog>, id: nat) {
    exists i :: 0 <= i < |logs| && logs[i].clientId == id
  }

  method Destroy(db: Database, user: nat, id: nat) returns (r: Result<()>)
    requires db.Valid()
    modifies db
    ensures db.Valid()
    ensures r.Err? ==> unchanged(db)
    ensures !OwnsClient(old(db.clients), user, id) ==> r == Err(NotFound)
    ensures OwnsClient(old(db.clients), user, id) && ClientHasProjects(old(db.projects), id) ==> r == Err(HasProjects)
    ensures (OwnsClient(old(db.clients), user, id) && !ClientHasProjects(old(db.projects), id)
             && ClientHasLogs(old(db.logs), id)) ==> r == Err(StorageError)
    ensures r.Ok? <==>
      OwnsClient(old(db.clients), user, id) && !ClientHasProjects(old(db.projects), id) && !ClientHasLogs(old(db.logs), id)
    ensures r.Ok? ==>
      && db.clients == old(db.clients) - {id}
      && db.projects == old(db.projects) && db.logs == old(db.logs)
      && db.nextClientId == old(db.nextClientId) && db.nextProjectId == old(db.nextProjectId)
      && db.nextLogId == old(db.nextLogId)
  {
    if !OwnsClient(db.clients, user, id) {
      return Err(NotFound);
    }
    if ClientHasProjects(db.projects, id) {
      return Err(HasProjects);
    }
    // `$client->delete()`: the foreign key from `project_time_logs.client_id` refuses it.
    if ClientHasLogs(db.logs, id) {
      return Err(StorageError);
    }
    db.clients := db.clients - {id};
    r := Ok(());
  }
}
