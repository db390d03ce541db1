/**
 * The user service: hashes the password before the insert, strips the
 * password from everything it returns, and changes a role or deactivates a
 * user by reading the row, checking it exists and writing the full record
 * back with one column changed.
 */
module Services {
  import opened Wrappers
  import opened Schema
  import opened UserModel
  import opened Repositories

  /** What `createUser` throws for any failure after hashing. */
  const CreateUserFailed := Error("Error creating new user")

  /** What destructuring the null row held in the variable `name` throws. */
  function NullRowDestructured(name: string): Error {
    Error("Cannot destructure property 'password' of '" + name + "' as it is null.")
  }

  function DeactivateNotFound(id: string): Error {
    Error("Can't deactivate user. User with id " + id + " not found")
  }

  function RoleNotFound(id: string): Error {
    Error("Can't change role for the user. User with id " + id + " not found")
  }

  /**
   * The insert `createUser` builds from its input: the five personal columns
   * as given, the hash as the password, and the role, 'user' when none is
   * given. Any id, activity flag or timestamp in the input is dropped.
   */
  function NewUserData(userData: NewUser, passwordHash: string): (n: NewUser)
    ensures n.password == passwordHash && n.userRole.Some?
    ensures n.id.None? && n.isActive.None? && n.createdAt.None? && n.updatedAt.None?
    ensures n.email == userData.email && n.firstName == userData.firstName && n.lastName == userData.lastName
  {
    NewUser(
      None,
      userData.firstName,
      userData.middleName,
      userData.lastName,
      userData.dateOfBirth,
      userData.email,
      passwordHash,
      Some(userData.userRole.GetOr(RoleUser)),
      None,
      None,
      None)
  }

  /** The row `createUser` asks the store to insert at time `now`. */
  function InsertedRow(userData: NewUser, passwordHash: string, generatedId: string, now: nat): User {
    InsertRow(NewUserData(userData, passwordHash), generatedId, now)
  }

  /**
   * The stored row carries the hash, never the plaintext (unless the hash is
   * the plaintext itself), the input's personal columns, the input's role or
   * 'user', the generated id in canonical form, an active flag and the insert
   * time in both stamps; each varchar column is cut to its length, which
   * changes nothing when it fits. An id, an activity flag or a timestamp in
   * the input changes nothing.
   */
  lemma StoredRowContents(userData: NewUser, passwordHash: string, generatedId: string, now: nat,
                          id: Option<string>, active: Option<bool>, createdAt: Option<nat>, updatedAt: Option<nat>)
    ensures var u := Coerce(InsertedRow(userData, passwordHash, generatedId, now));
      && u.password == Clip(passwordHash)
      && u.firstName == Clip(userData.firstName)
      && u.middleName == (if userData.middleName.Some? then Some(Clip(userData.middleName.value)) else None)
      && u.lastName == Clip(userData.lastName) && u.dateOfBirth == userData.dateOfBirth
      && u.email == Clip(userData.email)
      && u.userRole == (if userData.userRole.Some? then userData.userRole.value else RoleUser)
      && u.id == CanonicalId(generatedId) && u.isActive && u.createdAt == now && u.updatedAt == now
      && InsertedRow(userData.(id := id, isActive := active, createdAt := createdAt, updatedAt := updatedAt),
                     passwordHash, generatedId, now)
         == InsertedRow(userData, passwordHash, generatedId, now)
  {
  }

  /** `users.map(({ password, ...rest }) => rest)`. */
  function StripAll(users: seq<User>): (r: seq<UserWithoutPassword>)
    ensures |r| == |users|
    ensures forall i :: 0 <= i < |users| ==> r[i] == Strip(users[i])
  {
    if |users| == 0 then [] else [Strip(users[0])] + StripAll(users[1..])
  }

  /** `users` is the public view of the table: one stripped record per row, and nothing else. */
  ghost predicate ListsPublicTable(users: seq<UserWithoutPassword>, rows: map<string, User>) {
    && |users| == |rows|
    && (forall i :: 0 <= i < |users| ==> users[i].id in rows && users[i] == Strip(rows[users[i].id]))
    && (forall i, j :: 0 <= i < j < |users| ==> users[i].id != users[j].id)
    && (forall k :: k in rows ==> exists i :: 0 <= i < |users| && users[i].id == k)
  }

  lemma {:induction false} StripAllListsPublicTable(users: seq<User>, rows: map<string, User>)
    requires ListsTable(users, rows)
    ensures ListsPublicTable(StripAll(users), rows)
  {
    var ps := StripAll(users);
    forall k | k in rows
      ensures exists i :: 0 <= i < |ps| && ps[i].id == k
    {
      var i :| 0 <= i < |users| && users[i].id == k;
      assert ps[i].id == k;
    }
  }

  class UserService {
    const repository: UserRepository
    /** argon2's `hash`, uninterpreted: a hash string, or the error it throws. */
    const hash: string -> Result<string, Error>

    constructor (repository: UserRepository, hash: string -> Result<string, Error>)
      ensures this.repository == repository && this.hash == hash
    {
      this.repository := repository;
      this.hash := hash;
    }

    /**
     * Hashes the password, then inserts. A hashing failure propagates as it
     * is, since it happens before the `try`; any failure of the insert is
     * rethrown as 'Error creating new user'. The result has no password.
     */
    method CreateUser(userData: NewUser, generatedId: string) returns (r: Result<UserWithoutPassword, Error>)
      requires repository.Valid()
      modifies repository
      ensures repository.Valid()
      ensures old(repository.Stamped()) ==> repository.Stamped()
      ensures hash(userData.password).Err? ==>
        r == Err(hash(userData.password).error) && unchanged(repository)
      ensures hash(userData.password).Ok? ==>
        var row := InsertedRow(userData, hash(userData.password).value, generatedId, old(repository.clock) + 1);
        && repository.link == Rest(old(repository.link))
        && if Answers(old(repository.link)) && ConstraintViolation(old(repository.rows), row).None? then
          && r == Ok(Strip(Coerce(row)))
          && repository.rows == old(repository.rows)[row.id := Coerce(row)]
          && repository.clock == old(repository.clock) + 1
        else
          && r == Err(CreateUserFailed)
          && repository.rows == old(repository.rows) && repository.clock == old(repository.clock)
    {
      var passwordHash := hash(userData.password);
      if passwordHash.Err? {
        return Err(passwordHash.error);
      }
      var created := repository.CreateUser(NewUserData(userData, passwordHash.value), generatedId);
      if created.Err? {
        return Err(CreateUserFailed);
      }
      r := Ok(Strip(created.value));
    }

    /**
     * The stripped row whose id is this uuid in any case. A missing id does
     * not give a not-found result: destructuring the null row throws.
     */
    method GetUserById(id: string) returns (r: Result<UserWithoutPassword, Error>)
      requires repository.Valid()
      modifies repository
      ensures repository.Valid() && repository.link == Rest(old(repository.link))
      ensures repository.rows == old(repository.rows) && repository.clock == old(repository.clock)
      ensures !Answers(old(repository.link)) ==> r == Err(ConnectionLost)
      ensures Answers(old(repository.link)) && CanonicalId(id) !in repository.rows ==>
        r == Err(NullRowDestructured("user"))
      ensures Answers(old(repository.link)) && CanonicalId(id) in repository.rows ==>
        r == Ok(Strip(repository.rows[CanonicalId(id)]))
      ensures r.Ok? ==> r.value.id == CanonicalId(id)
    {
      var found := repository.FindById(id);
      if found.Err? {
        return Err(found.error);
      }
      if found.value.None? {
        return Err(NullRowDestructured("user"));
      }
      r := Ok(Strip(found.value.value));
    }

    /** One stripped record per row. */
    method GetAllUsers() returns (r: Result<seq<UserWithoutPassword>, Error>)
      requires repository.Valid()
      modifies repository
      ensures repository.Valid() && repository.link == Rest(old(repository.link))
      ensures repository.rows == old(repository.rows) && repository.clock == old(repository.clock)
      ensures !Answers(old(repository.link)) ==> r == Err(ConnectionLost)
      ensures Answers(old(repository.link)) ==> r.Ok? && ListsPublicTable(r.value, repository.rows)
    {
      var users := repository.FindAll();
      if users.Err? {
        return Err(users.error);
      }
      StripAllListsPublicTable(users.value, repository.rows);
      r := Ok(StripAll(users.value));
    }

    /**
     * Reads the row, throws when there is none, else writes it back with
     * `isActive` false; a failure of the write is rethrown as it is. Only that
     * column and `updatedAt` change, and the new `updatedAt` is later than the
     * old one.
     */
    method DeactivateUser(id: string) returns (r: Result<UserWithoutPassword, Error>)
      requires repository.Valid()
      modifies repository
      ensures repository.Valid()
      ensures old(repository.Stamped()) ==> repository.Stamped()
      ensures !Answers(old(repository.link)) ==>
        && r == Err(ConnectionLost) && repository.link == Rest(old(repository.link))
        && repository.rows == old(repository.rows) && repository.clock == old(repository.clock)
      ensures Answers(old(repository.link)) && CanonicalId(id) !in old(repository.rows) ==>
        && r == Err(DeactivateNotFound(id)) && repository.link == Rest(old(repository.link))
        && repository.rows == old(repository.rows) && repository.clock == old(repository.clock)
      ensures Answers(old(repository.link)) && CanonicalId(id) in old(repository.rows) ==>
        var key := CanonicalId(id);
        && repository.link == Rest(Rest(old(repository.link)))
        && if Answers(Rest(old(repository.link))) then
          && repository.clock == old(repository.clock) + 1
          && repository.rows == old(repository.rows)[key := old(repository.rows)[key].(isActive := false, updatedAt := repository.clock)]
          && r == Ok(Strip(repository.rows[key]))
          && (old(repository.Stamped()) ==> r.value.updatedAt > old(repository.rows)[key].updatedAt)
        else
          && r == Err(UpdateFailure(ConnectionLost))
          && repository.rows == old(repository.rows) && repository.clock == old(repository.clock)
    {
      var found := repository.FindById(id);
      if found.Err? {
        return Err(found.error);
      }
      if found.value.None? {
        return Err(DeactivateNotFound(id));
      }
      var user := found.value.value;
      r := WriteBack(id, user.(isActive := false));
    }

    /**
     * Reads the row, throws when there is none, else writes it back with the
     * new role; a failure of the write is rethrown as it is. Only `userRole`
     * and `updatedAt` change, and the new `updatedAt` is later than the old
     * one.
     */
    method SetUserRole(id: string, role: UserRole) returns (r: Result<UserWithoutPassword, Error>)
      requires repository.Valid()
      modifies repository
      ensures repository.Valid()
      ensures old(repository.Stamped()) ==> repository.Stamped()
      ensures !Answers(old(repository.link)) ==>
        && r == Err(ConnectionLost) && repository.link == Rest(old(repository.link))
        && repository.rows == old(repository.rows) && repository.clock == old(repository.clock)
      ensures Answers(old(repository.link)) && CanonicalId(id) !in old(repository.rows) ==>
        && r == Err(RoleNotFound(id)) && repository.link == Rest(old(repository.link))
        && repository.rows == old(repository.rows) && repository.clock == old(repository.clock)
      ensures Answers(old(repository.link)) && CanonicalId(id) in old(repository.rows) ==>
        var key := CanonicalId(id);
        && repository.link == Rest(Rest(old(repository.link)))
        && if Answers(Rest(old(repository.link))) then
          && repository.clock == old(repository.clock) + 1
          && repository.rows == old(repository.rows)[key := old(repository.rows)[key].(userRole := role, updatedAt := repository.clock)]
          && r == Ok(Strip(repository.rows[key]))
          && (old(repository.Stamped()) ==> r.value.updatedAt > old(repository.rows)[key].updatedAt)
        else
          && r == Err(UpdateFailure(ConnectionLost))
          && repository.rows == old(repository.rows) && repository.clock == old(repository.clock)
    {
      var found := repository.FindById(id);
      if found.Err? {
        return Err(found.error);
      }
      if found.value.None? {
        return Err(RoleNotFound(id));
      }
      var user := found.value.value;
      r := WriteBack(id, user.(userRole := role));
    }

    /**
     * The `try` block shared by the two read-check-write operations: the full
     * record goes to `updateUser`, its errors are rethrown, and a null result
     * would throw on destructuring.
     */
    method WriteBack(id: string, record: User) returns (r: Result<UserWithoutPassword, Error>)
      requires repository.Valid()
      requires CanonicalId(id) in repository.rows
      requires SameKeyColumns(repository.rows[CanonicalId(id)], record)
      modifies repository
      ensures repository.Valid() && repository.link == Rest(old(repository.link))
      ensures old(repository.Stamped()) ==> repository.Stamped()
      ensures Answers(old(repository.link)) ==>
        && repository.clock == old(repository.clock) + 1
        && repository.rows == old(repository.rows)[CanonicalId(id) := record.(updatedAt := repository.clock)]
        && r == Ok(Strip(repository.rows[CanonicalId(id)]))
      ensures !Answers(old(repository.link)) ==>
        && r == Err(UpdateFailure(ConnectionLost))
        && repository.rows == old(repository.rows) && repository.clock == old(repository.clock)
    {
      var key := CanonicalId(id);
      var stamped := record.(updatedAt := repository.clock + 1);
      RewriteAdmitted(repository.rows, key, stamped);
      MergeFullRecord(repository.rows[key], record, repository.clock + 1);
      var updated := repository.UpdateUser(id, PatchOf(record));
      assert Answers(old(repository.link)) ==>
        (old(repository.rows) - {key})[key := stamped] == old(repository.rows)[key := stamped];
      match updated
      case Err(e) => r := Err(e);
      case Ok(None) => r := Err(NullRowDestructured("updatedUser"));
      case Ok(Some(u)) => r := Ok(Strip(u));
    }
  }
}
