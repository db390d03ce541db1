/**
 * The `users` table: its columns, their defaults and nullability, the role
 * enum, and the constraints the store enforces on every insert and update.
 */
module Schema {
  import opened Wrappers
  import opened Casing

  /** The `user_role` enum; its values are the strings 'admin' and 'user'. */
  datatype UserRole = RoleAdmin | RoleUser

  function RoleName(r: UserRole): (name: string)
    ensures name == "admin" || name == "user"
  {
    match r
    case RoleAdmin => "admin"
    case RoleUser => "user"
  }

  lemma {:induction false} RoleNameInjective(a: UserRole, b: UserRole)
    ensures RoleName(a) == RoleName(b) <==> a == b
  {
    if a != b {
      assert RoleName(a)[0] != RoleName(b)[0];
    }
  }

  /**
   * A UTC instant as the registration schema builds it: calendar year, month
   * (1 to 12, the month of the calendar date, not JavaScript's 0-based index),
   * day of month and hour.
   */
  datatype Instant = Instant(year: int, month: int, day: int, hour: int)

  /** Length bound of every varchar column. */
  const VarcharLength: nat := 255

  /** A stored row (`typeof usersTable.$inferSelect`); nullable columns are options. */
  datatype User = User(
    id: string,
    firstName: string,
    middleName: Option<string>,
    lastName: string,
    dateOfBirth: Option<Instant>,
    email: string,
    password: string,
    userRole: UserRole,
    isActive: bool,
    createdAt: nat,
    updatedAt: nat)

  /**
   * An insert (`typeof usersTable.$inferInsert`): every column with a default
   * (id, role, activity and both timestamps) or that accepts null is optional,
   * absent and null both meaning "not given".
   */
  datatype NewUser = NewUser(
    id: Option<string>,
    firstName: string,
    middleName: Option<string>,
    lastName: string,
    dateOfBirth: Option<Instant>,
    email: string,
    password: string,
    userRole: Option<UserRole>,
    isActive: Option<bool>,
    createdAt: Option<nat>,
    updatedAt: Option<nat>)

  /**
   * `Partial<NewUser>`: each column may be left out (None); a nullable column
   * given as null is Some(None).
   */
  datatype UserPatch = UserPatch(
    id: Option<string>,
    firstName: Option<string>,
    middleName: Option<Option<string>>,
    lastName: Option<string>,
    dateOfBirth: Option<Option<Instant>>,
    email: Option<string>,
    password: Option<string>,
    userRole: Option<UserRole>,
    isActive: Option<bool>,
    createdAt: Option<nat>,
    updatedAt: Option<nat>)

  /** Errors the store raises for a violated constraint. */
  const ValueTooLong := Error("value too long for type character varying(255)")
  const DuplicateId := Error("duplicate key value violates unique constraint \"users_pkey\"")
  const DuplicateEmail := Error("duplicate key value violates unique constraint \"users_email_unique\"")

  /**
   * The `id` column is a uuid: the store keeps its lower-case text, so two
   * spellings that differ only in the case of their hexadecimal digits name
   * the same key.
   */
  predicate IsCanonicalId(id: string) {
    ToLower(id) == id
  }

  function CanonicalId(id: string): (c: string)
    ensures IsCanonicalId(c) && |c| == |id|
    ensures forall i :: 0 <= i < |id| ==> c[i] == LowerChar(id[i])
    ensures IsCanonicalId(id) ==> c == id
  {
    ToLowerIdempotent(id);
    ToLower(id)
  }

  /**
   * A value a varchar(255) column accepts: at most 255 characters, or longer
   * with nothing but spaces past the 255th, which the store cuts off instead
   * of raising an error.
   */
  predicate FitsVarchar(s: string) {
    |s| <= VarcharLength || forall i :: VarcharLength <= i < |s| ==> s[i] == ' '
  }

  /** The value a varchar(255) column stores for an accepted `s`. */
  function Clip(s: string): (c: string)
    ensures |c| <= VarcharLength && |c| <= |s| && c == s[..|c|]
    ensures |s| <= VarcharLength ==> c == s
    ensures FitsVarchar(s) ==> forall i :: |c| <= i < |s| ==> s[i] == ' '
  {
    if |s| <= VarcharLength then s else s[..VarcharLength]
  }

  /** A 255-character value padded with spaces is stored without the padding. */
  lemma {:induction false} PaddingCut(s: string, padding: string)
    requires |s| == VarcharLength
    requires forall i :: 0 <= i < |padding| ==> padding[i] == ' '
    ensures FitsVarchar(s + padding) && Clip(s + padding) == s
  {
    var t := s + padding;
    forall i | VarcharLength <= i < |t|
      ensures t[i] == ' '
    {
      assert t[i] == padding[i - VarcharLength];
    }
    assert t[..VarcharLength] == s;
  }

  /** Every varchar column of the row is within its declared length. */
  predicate ColumnsFit(u: User) {
    && |u.firstName| <= VarcharLength
    && (u.middleName.Some? ==> |u.middleName.value| <= VarcharLength)
    && |u.lastName| <= VarcharLength
    && |u.email| <= VarcharLength
    && |u.password| <= VarcharLength
  }

  /** Every varchar column of the row is a value its column accepts. */
  predicate Storable(u: User) {
    && FitsVarchar(u.firstName)
    && (u.middleName.Some? ==> FitsVarchar(u.middleName.value))
    && FitsVarchar(u.lastName)
    && FitsVarchar(u.email)
    && FitsVarchar(u.password)
  }

  /** The row as the store keeps it: each varchar column cut to its length. */
  function Coerce(u: User): (c: User)
    ensures ColumnsFit(c)
    ensures ColumnsFit(u) ==> c == u
    ensures c == u.(firstName := c.firstName, middleName := c.middleName, lastName := c.lastName,
                    email := c.email, password := c.password)
  {
    u.(firstName := Clip(u.firstName),
       middleName := if u.middleName.Some? then Some(Clip(u.middleName.value)) else None,
       lastName := Clip(u.lastName),
       email := Clip(u.email),
       password := Clip(u.password))
  }

  /**
   * What the store guarantees of the table as a whole: rows are keyed by their
   * canonical primary key, every column fits, and no two rows share an email.
   */
  ghost predicate TableInvariant(rows: map<string, User>) {
    && (forall k | k in rows :: rows[k].id == k && IsCanonicalId(k) && ColumnsFit(rows[k]))
    && (forall k1, k2 | k1 in rows && k2 in rows && k1 != k2 :: rows[k1].email != rows[k2].email)
  }

  /** Is this email already taken by one of the rows? */
  predicate EmailTaken(rows: map<string, User>, email: string) {
    exists k | k in rows :: rows[k].email == email
  }

  /**
   * The constraint, if any, that writing `row` next to `others` violates, in
   * the order the store checks them: column lengths, then the primary key,
   * then the unique email, the last two on the row as it would be stored.
   */
  function ConstraintViolation(others: map<string, User>, row: User): (v: Option<Error>)
    ensures v.None? <==> Storable(row) && row.id !in others && !EmailTaken(others, Clip(row.email))
    ensures v.Some? ==> v.value in {ValueTooLong, DuplicateId, DuplicateEmail}
  {
    if !Storable(row) then Some(ValueTooLong)
    else if row.id in others then Some(DuplicateId)
    else if EmailTaken(others, Clip(row.email)) then Some(DuplicateEmail)
    else None
  }

  /** Writing a row the constraints admit, with a canonical id, keeps the table invariant. */
  lemma {:induction false} AdmittedRowKeepsInvariant(others: map<string, User>, row: User)
    requires TableInvariant(others)
    requires ConstraintViolation(others, row).None? && IsCanonicalId(row.id)
    ensures TableInvariant(others[row.id := Coerce(row)])
    ensures |others[row.id := Coerce(row)]| == |others| + 1
  {
    var rows := others[row.id := Coerce(row)];
    forall k1, k2 | k1 in rows && k2 in rows && k1 != k2
      ensures rows[k1].email != rows[k2].email
    {
      if k1 == row.id {
        assert k2 in others;
      } else if k2 == row.id {
        assert k1 in others;
      }
    }
  }

  /** Taking a row out keeps the table invariant. */
  lemma RemovalKeepsInvariant(rows: map<string, User>, id: string)
    requires TableInvariant(rows)
    ensures TableInvariant(rows - {id})
  {
  }

  /**
   * The row an insert writes, before its varchar columns are cut: the
   * generated id unless one is given, null for an absent nullable column,
   * role 'user', active, and the time of the insert for each timestamp not
   * given.
   */
  function InsertRow(n: NewUser, generatedId: string, now: nat): (u: User)
    ensures u.id == CanonicalId(n.id.GetOr(generatedId))
    ensures n.createdAt.None? ==> u.createdAt == now
    ensures n.updatedAt.None? ==> u.updatedAt == now
  {
    User(
      CanonicalId(n.id.GetOr(generatedId)),
      n.firstName,
      n.middleName,
      n.lastName,
      n.dateOfBirth,
      n.email,
      n.password,
      n.userRole.GetOr(RoleUser),
      n.isActive.GetOr(true),
      n.createdAt.GetOr(now),
      n.updatedAt.GetOr(now))
  }

  /** An insert that names no id, role, activity or timestamp gets the column defaults. */
  lemma InsertDefaults(n: NewUser, generatedId: string, now: nat)
    requires n.id.None? && n.userRole.None? && n.isActive.None?
    requires n.createdAt.None? && n.updatedAt.None?
    ensures var u := InsertRow(n, generatedId, now);
      && u.id == CanonicalId(generatedId) && u.userRole == RoleUser && u.isActive
      && u.createdAt == now && u.updatedAt == now
      && u.firstName == n.firstName && u.middleName == n.middleName && u.lastName == n.lastName
      && u.dateOfBirth == n.dateOfBirth && u.email == n.email && u.password == n.password
  {
  }

  /**
   * A merge-update: every column the patch gives overwrites the row, every
   * other column is kept, and `updatedAt` is the time of the update whatever
   * the patch says.
   */
  function Merge(u: User, p: UserPatch, now: nat): (r: User)
    ensures r.updatedAt == now && IsCanonicalId(r.id)
    ensures p.id.None? && IsCanonicalId(u.id) ==> r.id == u.id
    ensures p.email.None? ==> r.email == u.email
    ensures p.createdAt.None? ==> r.createdAt == u.createdAt
  {
    User(
      CanonicalId(p.id.GetOr(u.id)),
      p.firstName.GetOr(u.firstName),
      p.middleName.GetOr(u.middleName),
      p.lastName.GetOr(u.lastName),
      p.dateOfBirth.GetOr(u.dateOfBirth),
      p.email.GetOr(u.email),
      p.password.GetOr(u.password),
      p.userRole.GetOr(u.userRole),
      p.isActive.GetOr(u.isActive),
      p.createdAt.GetOr(u.createdAt),
      now)
  }

  /** The patch `{ ...v }`: every column of `v` given. */
  function PatchOf(v: User): UserPatch {
    UserPatch(
      Some(v.id), Some(v.firstName), Some(v.middleName), Some(v.lastName),
      Some(v.dateOfBirth), Some(v.email), Some(v.password), Some(v.userRole),
      Some(v.isActive), Some(v.createdAt), Some(v.updatedAt))
  }

  /** The patch that gives no column. */
  const EmptyPatch := UserPatch(None, None, None, None, None, None, None, None, None, None, None)

  /**
   * Merging a full record replaces the row by it, except for the new
   * `updatedAt` and the id, which the store keeps in canonical form.
   */
  lemma MergeFullRecord(u: User, v: User, now: nat)
    ensures Merge(u, PatchOf(v), now) == v.(id := CanonicalId(v.id), updatedAt := now)
    ensures IsCanonicalId(v.id) ==> Merge(u, PatchOf(v), now) == v.(updatedAt := now)
  {
  }

  /** Merging nothing only restamps `updatedAt` (and canonicalises the id). */
  lemma MergeNothing(u: User, now: nat)
    ensures Merge(u, EmptyPatch, now) == u.(id := CanonicalId(u.id), updatedAt := now)
  {
  }

  /** `v` keeps the id, the email and every varchar column of `u`. */
  predicate SameKeyColumns(u: User, v: User) {
    && v.id == u.id && v.email == u.email
    && v.firstName == u.firstName && v.middleName == u.middleName
    && v.lastName == u.lastName && v.password == u.password
  }

  /**
   * Rewriting a stored row with one that keeps its id, email and varchar
   * columns never violates a constraint against the other rows, and the
   * store keeps it as it is.
   */
  lemma RewriteAdmitted(rows: map<string, User>, id: string, row: User)
    requires TableInvariant(rows) && id in rows && SameKeyColumns(rows[id], row)
    ensures ConstraintViolation(rows - {id}, row).None? && Coerce(row) == row
  {
  }
}
