/**
 * The `User` record and the `Profile` enum that graphql/types/User.ts exposes,
 * the user table they live in, and the table's invariant.
 */
module UserSchema {
  import opened Wrappers

  /** The closed `Profile` enumeration: ADMIN, MANAGER, TEAM_MEMBER. */
  datatype Profile = Admin | Manager | TeamMember

  /** One row of the user table; `image` and `teamId` are nullable columns. */
  datatype User = User(
    id: string,
    name: string,
    email: string,
    profile: Profile,
    image: Option<string>,
    teamId: Option<string>)

  /** The user table, keyed by primary key. */
  type UserTable = map<string, User>

  /**
   * A nullable GraphQL argument such as `image`: left out of the request
   * (undefined in the resolver), sent as an explicit null, or given a value.
   */
  datatype NullableArg = Omitted | Null | Given(value: string)

  /**
   * The errors the resolvers throw. `UserNotFound` stands for both the
   * update's and the delete's missing-user messages; each mutation still
   * throws it at a single place.
   */
  datatype Error =
    | IdNotInformed
    | UserNotFound
    | DuplicateEmail(email: string)
    | UserHasTeam(teamId: string)

  /** The result of one mutation together with the table it leaves behind. */
  datatype Outcome = Outcome(result: Result<User, Error>, users: UserTable)

  /** JavaScript truthiness of a string: the empty string is the only falsy one. */
  predicate Informed(id: string) {
    id != ""
  }

  /** Each row is stored under its own, non-empty id. */
  predicate KeysAreIds(us: UserTable) {
    forall k :: k in us ==> Informed(k) && us[k].id == k
  }

  /** No two users share an email (the table's unique constraint on `email`). */
  predicate EmailsUnique(us: UserTable) {
    forall a, b :: a in us && b in us && us[a].email == us[b].email ==> a == b
  }

  predicate WellFormed(us: UserTable) {
    KeysAreIds(us) && EmailsUnique(us)
  }

  /** What `findUnique({ where: { email } })` answers when tested for truthiness. */
  predicate EmailInUse(us: UserTable, email: string) {
    exists k :: k in us && us[k].email == email
  }
}
