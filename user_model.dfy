/** The public projection of a user: every column except the password. */
module UserModel {
  import opened Wrappers
  import opened Schema

  /** `Omit<User, 'password'>`. */
  datatype UserWithoutPassword = UserWithoutPassword(
    id: string,
    firstName: string,
    middleName: Option<string>,
    lastName: string,
    dateOfBirth: Option<Instant>,
    email: string,
    userRole: UserRole,
    isActive: bool,
    createdAt: nat,
    updatedAt: nat)

  /**
   * `const { password, ...rest } = user`: the row without its password.
   * Stripping loses the password and nothing else.
   */
  function Strip(u: User): (p: UserWithoutPassword)
    ensures WithPassword(p, u.password) == u
  {
    UserWithoutPassword(
      u.id, u.firstName, u.middleName, u.lastName, u.dateOfBirth,
      u.email, u.userRole, u.isActive, u.createdAt, u.updatedAt)
  }

  /** Puts a password back into a public record. */
  function WithPassword(p: UserWithoutPassword, password: string): User {
    User(
      p.id, p.firstName, p.middleName, p.lastName, p.dateOfBirth,
      p.email, password, p.userRole, p.isActive, p.createdAt, p.updatedAt)
  }

  lemma StripOfWithPassword(p: UserWithoutPassword, password: string)
    ensures Strip(WithPassword(p, password)) == p
  {
  }

  /** Two rows have the same public view exactly when they differ at most in the password. */
  lemma {:induction false} StripEqualIff(u: User, v: User)
    ensures Strip(u) == Strip(v) <==> u == v.(password := u.password)
  {
    if Strip(u) == Strip(v) {
      assert u == WithPassword(Strip(v), u.password);
    }
  }
}
