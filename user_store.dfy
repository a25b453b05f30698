/**
 * The user table as shared mutable state, with the three mutation resolvers
 * of graphql/types/User.ts as methods: each runs its guard reads and then
 * either throws (returns a `Failure`, table untouched) or performs exactly
 * one write.
 */
module UserStore {
  import opened Wrappers
  import opened UserSchema
  import UserResolvers

  class Store {
    var users: UserTable

    /** Emails are unique and every row sits under its own id. */
    ghost predicate Valid()
      reads this
    {
      WellFormed(users)
    }

    constructor ()
      ensures Valid()
      ensures users == map[]
    {
      users := map[];
    }

    /** `createUser`; `newId` is the id the database generates for the new row. */
    method CreateUser(newId: string, name: string, email: string, profile: Profile, image: NullableArg)
      returns (r: Result<User, Error>)
      requires Valid()
      requires Informed(newId) && newId !in users
      modifies this
      ensures Valid()
      ensures Outcome(r, users) == UserResolvers.CreateUser(old(users), newId, name, email, profile, image)
      ensures r.Failure? ==> users == old(users)
      ensures r.Success? ==> users == old(users)[newId := r.value]
    {
      var taken := EmailInUse(users, email);
      if taken {
        return Failure(DuplicateEmail(email));
      }
      var u := User(newId, name, email, profile, UserResolvers.ImageOnCreate(image), None);
      users := users[newId := u];
      r := Success(u);
    }

    /** `updateUser`: id present, user exists, a changed email is free, then one full update. */
    method UpdateUser(id: string, name: string, email: string, profile: Profile, image: NullableArg)
      returns (r: Result<User, Error>)
      requires Valid()
      modifies this
      ensures Valid()
      ensures Outcome(r, users) == UserResolvers.UpdateUser(old(users), id, name, email, profile, image)
      ensures r.Failure? ==> users == old(users)
      ensures r.Success? ==> users == old(users)[id := r.value] && r.value.teamId == old(users)[id].teamId
    {
      if !Informed(id) {
        return Failure(IdNotInformed);
      }
      if id !in users {
        return Failure(UserNotFound);
      }
      var user := users[id];
      if user.email != email {
        var taken := EmailInUse(users, email);
        if taken {
          return Failure(DuplicateEmail(email));
        }
      }
      var u := User(user.id, name, email, profile, UserResolvers.ImageOnUpdate(user.image, image), user.teamId);
      users := users[id := u];
      r := Success(u);
    }

    /** `deleteUser`: id present, user exists and is in no team, then one delete; returns the row read first. */
    method DeleteUser(id: string) returns (r: Result<User, Error>)
      requires Valid()
      modifies this
      ensures Valid()
      ensures Outcome(r, users) == UserResolvers.DeleteUser(old(users), id)
      ensures r.Failure? ==> users == old(users)
      ensures r.Success? ==> r.value == old(users)[id] && users == old(users) - {id}
    {
      if !Informed(id) {
        return Failure(IdNotInformed);
      }
      if id !in users {
        return Failure(UserNotFound);
      }
      var user := users[id];
      if user.teamId.Some? {
        return Failure(UserHasTeam(user.teamId.value));
      }
      users := users - {id};
      r := Success(user);
    }
  }
}
