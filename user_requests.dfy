/**
 * Sequences of user mutations, as a client issues them one after another:
 * the table's invariant holds after any such sequence, including the
 * mutations that are rejected.
 */
module UserRequests {
  import opened Wrappers
  import opened UserSchema
  import opened UserResolvers

  /** The arguments of one mutation request; `newId` is the id the database assigns. */
  datatype Request =
    | CreateUserRequest(newId: string, name: string, email: string, profile: Profile, image: NullableArg)
    | UpdateUserRequest(id: string, name: string, email: string, profile: Profile, image: NullableArg)
    | DeleteUserRequest(id: string)

  /** A create can only be given an id the table does not hold yet. */
  predicate Admissible(us: UserTable, req: Request) {
    req.CreateUserRequest? ==> Informed(req.newId) && req.newId !in us
  }

  function Apply(us: UserTable, req: Request): (o: Outcome)
    requires Admissible(us, req)
    ensures o.result.Failure? ==> o.users == us
  {
    match req
    case CreateUserRequest(newId, name, email, profile, image) =>
      CreateUser(us, newId, name, email, profile, image)
    case UpdateUserRequest(id, name, email, profile, image) =>
      UpdateUser(us, id, name, email, profile, image)
    case DeleteUserRequest(id) =>
      DeleteUser(us, id)
  }

  predicate AdmissibleRun(us: UserTable, reqs: seq<Request>)
    decreases |reqs|
  {
    reqs == [] || (Admissible(us, reqs[0]) && AdmissibleRun(Apply(us, reqs[0]).users, reqs[1..]))
  }

  /** The table after the requests are handled one at a time, in order. */
  function Run(us: UserTable, reqs: seq<Request>): UserTable
    requires AdmissibleRun(us, reqs)
    decreases |reqs|
  {
    if reqs == [] then us else Run(Apply(us, reqs[0]).users, reqs[1..])
  }

  /** Emails stay unique, and rows stay under their own ids, after any sequence of mutations. */
  lemma {:induction false} RunPreservesWellFormed(us: UserTable, reqs: seq<Request>)
    requires WellFormed(us)
    requires AdmissibleRun(us, reqs)
    ensures WellFormed(Run(us, reqs))
    decreases |reqs|
  {
    if reqs != [] {
      var next := Apply(us, reqs[0]).users;
      assert WellFormed(next);
      RunPreservesWellFormed(next, reqs[1..]);
    }
  }

  /** Creating users, successfully or not, never changes or removes an existing user. */
  lemma {:induction false} CreatesKeepExistingUsers(us: UserTable, reqs: seq<Request>, k: string)
    requires AdmissibleRun(us, reqs)
    requires forall i :: 0 <= i < |reqs| ==> reqs[i].CreateUserRequest?
    requires k in us
    ensures k in Run(us, reqs) && Run(us, reqs)[k] == us[k]
    decreases |reqs|
  {
    if reqs != [] {
      var next := Apply(us, reqs[0]).users;
      assert k in next && next[k] == us[k];
      CreatesKeepExistingUsers(next, reqs[1..], k);
    }
  }

  /**
   * Create A with a@x.com; creating B with the same email fails; B with
   * b@x.com succeeds; deleting A (in no team) succeeds; deleting A again
   * fails as not found.
   */
  lemma DuplicateEmailScenario()
    ensures
      var o1 := CreateUser(map[], "a", "A", "a@x.com", TeamMember, Omitted);
      var o2 := CreateUser(o1.users, "b", "B", "a@x.com", TeamMember, Omitted);
      var o3 := CreateUser(o2.users, "b", "B", "b@x.com", TeamMember, Omitted);
      var o4 := DeleteUser(o3.users, "a");
      var o5 := DeleteUser(o4.users, "a");
      && o1.result.Success?
      && o2.result == Failure(DuplicateEmail("a@x.com"))
      && o3.result.Success?
      && o4.result == Success(User("a", "A", "a@x.com", TeamMember, None, None))
      && o5.result == Failure(UserNotFound)
      && o5.users == map["b" := User("b", "B", "b@x.com", TeamMember, None, None)]
  {
  }

  /**
   * A user M whose team reference is set to team T cannot be deleted; once
   * M's team reference is cleared (by a team mutation, not modelled here),
   * the same delete succeeds.
   */
  lemma TeamMemberDeleteScenario(us: UserTable, m: string, t: string)
    requires Informed(m) && m in us && us[m].teamId == Some(t)
    ensures DeleteUser(us, m) == Outcome(Failure(UserHasTeam(t)), us)
    ensures var left := us[m := us[m].(teamId := None)];
      DeleteUser(left, m) == Outcome(Success(left[m]), us - {m})
  {
  }
}
