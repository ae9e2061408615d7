/** The persistence gateway (package storage/sqlite): the `users`, `apps`
    and `admins` tables and the four statements the service runs on them.

    The driver can fail at any statement for reasons of its own (a locked
    database, a closed connection); such a failure is a parameter of each
    operation, and its message is passed up unchanged. */
module Sqlite {
  import opened Errors
  import Models

  /** Where the driver fails while SaveUser runs, if anywhere. A failure of
      LastInsertId comes after the row was inserted. */
  datatype SaveFault =
    | Healthy
    | PrepareFails(cause: string)
    | ExecFails(cause: string)
    | LastInsertIdFails(cause: string)

  /** The UNIQUE constraint on users.email. */
  ghost predicate EmailsUnique(users: map<int, Models.User>)
  {
    forall i, j :: i in users && j in users && users[i].email == users[j].email ==> i == j
  }

  /** Some row of `users` has this email. */
  predicate HasEmail(users: map<int, Models.User>, email: string)
  {
    exists id :: id in users && users[id].email == email
  }

  /** The row with this email; the constraint makes it unique. */
  function RowByEmail(users: map<int, Models.User>, email: string): (u: Models.User)
    requires EmailsUnique(users) && HasEmail(users, email)
    ensures exists id :: id in users && users[id] == u
    ensures u.email == email
  {
    var id :| id in users && users[id].email == email;
    users[id]
  }

  /** After inserting a row with a new email, looking that email up finds
      exactly the inserted row. */
  lemma {:induction false} FindAfterInsert(users: map<int, Models.User>, id: int, u: Models.User)
    requires EmailsUnique(users) && id !in users && !HasEmail(users, u.email)
    ensures EmailsUnique(users[id := u]) && HasEmail(users[id := u], u.email)
    ensures RowByEmail(users[id := u], u.email) == u
  {
    assert users[id := u][id].email == u.email;
  }

  class Storage {
    var users: map<int, Models.User>   // users, by rowid
    var apps: map<int, Models.App>     // apps, by id
    var admins: set<int>               // admins.user_id
    var nextId: int                    // rowid the next inserted user receives

    /** Each row sits under its own id, user ids are positive and below the
        next rowid, and emails are unique. */
    ghost predicate Valid()
      reads this
    {
      && 0 < nextId
      && (forall id :: id in users ==> users[id].id == id && 0 < id < nextId)
      && EmailsUnique(users)
      && (forall id :: id in apps ==> apps[id].id == id)
    }

    /** A database with the given applications and admin rows and no users. */
    constructor (apps: map<int, Models.App>, admins: set<int>)
      requires forall id :: id in apps ==> apps[id].id == id
      ensures Valid()
      ensures users == map[] && this.apps == apps && this.admins == admins && nextId == 1
    {
      this.users := map[];
      this.apps := apps;
      this.admins := admins;
      this.nextId := 1;
    }

    /** INSERT INTO users (email, pass_hash) VALUES (?, ?), then
        LastInsertId. A uniqueness violation is reported as
        storage.ErrUserExists; every other driver error by its message. */
    method SaveUser(email: string, passHash: string, fault: SaveFault) returns (r: Result<int>)
      requires Valid()
      modifies this
      ensures Valid()
      ensures apps == old(apps) && admins == old(admins)
      ensures Inserts(fault, old(users), email) ==>
                users == old(users)[old(nextId) := Models.User(old(nextId), email, passHash)]
                && nextId == old(nextId) + 1
      ensures !Inserts(fault, old(users), email) ==> users == old(users) && nextId == old(nextId)
      ensures r == SaveOutcome(fault, old(users), email, old(nextId))
    {
      match fault {
        case PrepareFails(cause) =>
          return Err(0, Failure(cause));
        case ExecFails(cause) =>
          return Err(0, Failure(cause));
        case _ =>
      }
      if HasEmail(users, email) {
        return Err(0, StoreUserExists);
      }
      var id := nextId;
      users := users[id := Models.User(id, email, passHash)];
      nextId := nextId + 1;
      if fault.LastInsertIdFails? {
        return Err(0, Failure(fault.cause));
      }
      return Ok(id);
    }

    /** SELECT id, email, pass_hash FROM users WHERE email = ?. No row is
        storage.ErrUserNotFound; the user is then the zero User. */
    function User(email: string, driverError: Option<string>): (r: Result<Models.User>)
      reads this
      requires Valid()
      ensures driverError.Some? ==> r == Err(Models.ZeroUser, Failure(driverError.value))
      ensures driverError.None? ==> (r.Ok? <==> HasEmail(users, email))
      ensures driverError.None? && !HasEmail(users, email) ==> r == Err(Models.ZeroUser, StoreUserNotFound)
      ensures r.Ok? ==> r.value.id in users && users[r.value.id] == r.value && r.value.email == email
    {
      if driverError.Some? then Err(Models.ZeroUser, Failure(driverError.value))
      else if HasEmail(users, email) then Ok(RowByEmail(users, email))
      else Err(Models.ZeroUser, StoreUserNotFound)
    }

    /** SELECT EXISTS(SELECT 1 FROM admins WHERE admins.user_id = ? AND
        EXISTS(SELECT 1 FROM users WHERE users.id = ?)). The outer EXISTS
        always yields one row, so an unknown user is answered `false`, never
        storage.ErrUserNotFound. */
    function IsAdmin(userId: int, driverError: Option<string>): (r: Result<bool>)
      reads this
      ensures driverError.None? ==> r.Ok? && (r.value <==> userId in admins && userId in users)
      ensures driverError.Some? ==> r == Err(false, Failure(driverError.value))
      ensures r.Err? ==> r.error.Failure?
    {
      if driverError.Some? then Err(false, Failure(driverError.value))
      else Ok(userId in admins && userId in users)
    }

    /** SELECT id, name, secret FROM apps WHERE id = ?. No row is
        storage.ErrAppNotFound; the app is then the zero App. */
    function App(appId: int, driverError: Option<string>): (r: Result<Models.App>)
      reads this
      requires Valid()
      ensures driverError.Some? ==> r == Err(Models.ZeroApp, Failure(driverError.value))
      ensures driverError.None? ==> (r.Ok? <==> appId in apps)
      ensures driverError.None? && appId !in apps ==> r == Err(Models.ZeroApp, StoreAppNotFound)
      ensures r.Ok? ==> r.value == apps[appId] && r.value.id == appId
    {
      if driverError.Some? then Err(Models.ZeroApp, Failure(driverError.value))
      else if appId in apps then Ok(apps[appId])
      else Err(Models.ZeroApp, StoreAppNotFound)
    }
  }

  /** Whether SaveUser adds a row: the statement runs and the email is new. */
  predicate Inserts(fault: SaveFault, users: map<int, Models.User>, email: string)
  {
    !fault.PrepareFails? && !fault.ExecFails? && !HasEmail(users, email)
  }

  /** What SaveUser answers, given the table before the call and the rowid
      the insert would receive: every error carries the zero id. */
  function SaveOutcome(fault: SaveFault, users: map<int, Models.User>, email: string, id: int): (r: Result<int>)
    ensures r.Err? ==> r.value == 0
    ensures r.Err? && r.error != StoreUserExists ==> r.error.Failure?
  {
    match fault
    case PrepareFails(cause) => Err(0, Failure(cause))
    case ExecFails(cause) => Err(0, Failure(cause))
    case LastInsertIdFails(cause) =>
      if HasEmail(users, email) then Err(0, StoreUserExists) else Err(0, Failure(cause))
    case Healthy =>
      if HasEmail(users, email) then Err(0, StoreUserExists) else Ok(id)
  }

  /** SaveOutcome, stated: the call succeeds exactly when a row was inserted
      and LastInsertId worked, and it then answers the new row's id; a
      duplicate email is the only cause of storage.ErrUserExists. */
  lemma SaveOutcomeMeaning(fault: SaveFault, users: map<int, Models.User>, email: string, id: int)
    ensures SaveOutcome(fault, users, email, id).Ok? <==> Inserts(fault, users, email) && fault.Healthy?
    ensures SaveOutcome(fault, users, email, id).Ok? ==> SaveOutcome(fault, users, email, id).value == id
    ensures SaveOutcome(fault, users, email, id) == Err(0, StoreUserExists) <==>
              !fault.PrepareFails? && !fault.ExecFails? && HasEmail(users, email)
  {
  }
}
