/**
 * What the `users` query and the `createUser`, `updateUser` and `deleteUser`
 * mutations of graphql/types/User.ts do to the user table, as functions from
 * the table and the arguments to a result and the new table.
 */
module UserResolvers {
  import opened Wrappers
  import opened UserSchema

  /**
   * The rows the `users` query selects before the connection pages them:
   * a truthy `id` wins, then a true `withoutTeam`, else every row.
   */
  function ListUsers(us: UserTable, id: Option<string>, withoutTeam: Option<bool>): (r: UserTable)
    ensures forall k :: k in r ==> k in us && r[k] == us[k]
  {
    if id.Some? && Informed(id.value) then
      map k | k in us && us[k].id == id.value :: us[k]
    else if withoutTeam == Some(true) then
      map k | k in us && us[k].teamId == None :: us[k]
    else
      us
  }

  /** An explicit `id` selects exactly the row with that key, ignoring `withoutTeam`. */
  lemma ListUsersById(us: UserTable, id: string, withoutTeam: Option<bool>)
    requires WellFormed(us)
    requires Informed(id)
    ensures var r := ListUsers(us, Some(id), withoutTeam);
      && (forall k :: k in r <==> k in us && k == id)
      && |r| <= 1
      && r == ListUsers(us, Some(id), None)
  {
    var r := ListUsers(us, Some(id), withoutTeam);
    assert r.Keys <= {id};
    if id in r {
      assert r.Keys == {id};
    } else {
      assert r.Keys == {};
    }
  }

  /** Without a truthy `id`, `withoutTeam: true` selects exactly the users with no team. */
  lemma ListUsersWithoutTeam(us: UserTable, id: Option<string>)
    requires !(id.Some? && Informed(id.value))
    ensures var r := ListUsers(us, id, Some(true));
      forall k :: k in r <==> k in us && us[k].teamId.None?
  {
  }

  /** With neither a truthy `id` nor a true `withoutTeam`, every user is selected. */
  lemma ListUsersAll(us: UserTable, id: Option<string>, withoutTeam: Option<bool>)
    requires !(id.Some? && Informed(id.value))
    requires withoutTeam != Some(true)
    ensures ListUsers(us, id, withoutTeam).Keys == us.Keys
  {
  }

  /** The `image` column of a new row: an omitted or null argument leaves it null. */
  function ImageOnCreate(image: NullableArg): (r: Option<string>)
    ensures r.Some? <==> image.Given?
    ensures r.Some? ==> r.value == image.value
  {
    match image
    case Given(url) => Some(url)
    case _ => None
  }

  /**
   * The `image` column after an update: Prisma skips a field whose value is
   * undefined, so an omitted argument keeps the stored image, while an
   * explicit null clears it.
   */
  function ImageOnUpdate(stored: Option<string>, image: NullableArg): (r: Option<string>)
    ensures image.Omitted? ==> r == stored
    ensures !image.Omitted? ==> r == ImageOnCreate(image)
  {
    match image
    case Omitted => stored
    case Null => None
    case Given(url) => Some(url)
  }

  /**
   * `createUser`: refuse an email that some user already has, otherwise
   * insert one row under the id the database generates (`newId`).
   */
  function CreateUser(us: UserTable, newId: string, name: string, email: string,
                      profile: Profile, image: NullableArg): (o: Outcome)
    requires Informed(newId) && newId !in us
    ensures o.result.Failure? <==> EmailInUse(us, email)
    ensures o.result.Failure? ==> o.result.error == DuplicateEmail(email) && o.users == us
    ensures o.result.Success? ==>
      var u := o.result.value;
      && u == User(newId, name, email, profile, ImageOnCreate(image), None)
      && o.users.Keys == us.Keys + {newId}
      && o.users[newId] == u
      && (forall k :: k in us ==> o.users[k] == us[k])
    ensures WellFormed(us) ==> WellFormed(o.users)
  {
    if EmailInUse(us, email) then
      Outcome(Failure(DuplicateEmail(email)), us)
    else
      var u := User(newId, name, email, profile, ImageOnCreate(image), None);
      Outcome(Success(u), us[newId := u])
  }

  /**
   * `updateUser`: the id must be truthy and name an existing user; a changed
   * email must not be in use; then name, email, profile and image are written
   * in one update, and the row's id and team stay as they were.
   */
  function UpdateUser(us: UserTable, id: string, name: string, email: string,
                      profile: Profile, image: NullableArg): (o: Outcome)
    ensures !Informed(id) ==> o == Outcome(Failure(IdNotInformed), us)
    ensures Informed(id) && id !in us ==> o == Outcome(Failure(UserNotFound), us)
    ensures o.result == Failure(DuplicateEmail(email)) <==>
      Informed(id) && id in us && us[id].email != email && EmailInUse(us, email)
    ensures o.result.Success? <==>
      Informed(id) && id in us && (us[id].email == email || !EmailInUse(us, email))
    ensures o.result.Failure? ==> o.users == us
    ensures o.result.Success? ==>
      var u := o.result.value;
      && id in us
      && u == User(us[id].id, name, email, profile, ImageOnUpdate(us[id].image, image), us[id].teamId)
      && o.users.Keys == us.Keys
      && o.users[id] == u
      && (forall k :: k in us && k != id ==> o.users[k] == us[k])
    ensures WellFormed(us) ==> WellFormed(o.users)
  {
    if !Informed(id) then
      Outcome(Failure(IdNotInformed), us)
    else if id !in us then
      Outcome(Failure(UserNotFound), us)
    else if us[id].email != email && EmailInUse(us, email) then
      Outcome(Failure(DuplicateEmail(email)), us)
    else
      var stored := us[id];
      var u := User(stored.id, name, email, profile, ImageOnUpdate(stored.image, image), stored.teamId);
      Outcome(Success(u), us[id := u])
  }

  /**
   * `deleteUser`: the id must be truthy and name an existing user who is in
   * no team; then the row is removed and returned as it was read.
   */
  function DeleteUser(us: UserTable, id: string): (o: Outcome)
    ensures !Informed(id) ==> o == Outcome(Failure(IdNotInformed), us)
    ensures Informed(id) && id !in us ==> o == Outcome(Failure(UserNotFound), us)
    ensures Informed(id) && id in us && us[id].teamId.Some? ==>
      o == Outcome(Failure(UserHasTeam(us[id].teamId.value)), us)
    ensures o.result.Success? <==> Informed(id) && id in us && us[id].teamId.None?
    ensures o.result.Success? ==> id in us && o.result.value == us[id] && o.users == us - {id}
    ensures WellFormed(us) ==> WellFormed(o.users)
  {
    if !Informed(id) then
      Outcome(Failure(IdNotInformed), us)
    else if id !in us then
      Outcome(Failure(UserNotFound), us)
    else if us[id].teamId.Some? then
      Outcome(Failure(UserHasTeam(us[id].teamId.value)), us)
    else
      Outcome(Success(us[id]), us - {id})
  }

  /** Once a user holds an email, creating another user with it always fails. */
  lemma CreateWithTakenEmailFails(us: UserTable, id1: string, id2: string, name1: string,
                                  name2: string, email: string, p1: Profile, p2: Profile,
                                  img1: NullableArg, img2: NullableArg)
    requires Informed(id1) && id1 !in us
    requires CreateUser(us, id1, name1, email, p1, img1).result.Success?
    requires Informed(id2) && id2 !in CreateUser(us, id1, name1, email, p1, img1).users
    ensures var us' := CreateUser(us, id1, name1, email, p1, img1).users;
      CreateUser(us', id2, name2, email, p2, img2) == Outcome(Failure(DuplicateEmail(email)), us')
  {
  }

  /** Keeping a user's own email never fails on email grounds. */
  lemma UpdateKeepingEmailNeverDuplicate(us: UserTable, id: string, name: string,
                                         profile: Profile, image: NullableArg)
    requires Informed(id) && id in us
    ensures UpdateUser(us, id, name, us[id].email, profile, image).result.Success?
  {
  }

  /** Repeating a successful update changes nothing further and gives the same user. */
  lemma UpdateIsIdempotent(us: UserTable, id: string, name: string, email: string,
                           profile: Profile, image: NullableArg)
    requires UpdateUser(us, id, name, email, profile, image).result.Success?
    ensures var o := UpdateUser(us, id, name, email, profile, image);
      UpdateUser(o.users, id, name, email, profile, image) == o
  {
  }

  /** A user removed by a successful delete is not found by a second one. */
  lemma DeleteTwiceNotFound(us: UserTable, id: string)
    requires DeleteUser(us, id).result.Success?
    ensures var us' := DeleteUser(us, id).users;
      DeleteUser(us', id) == Outcome(Failure(UserNotFound), us')
  {
  }
}
