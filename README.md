# User resolvers of the staff-management API, in Dafny

This project models the User resolver layer of a staff-management GraphQL
backend (`graphql/types/User.ts`): the `Profile` enum and `User` record, the
selection the `users` query makes before its results are paged, and the
`createUser`, `updateUser` and `deleteUser` mutations. The database behind
them is an in-memory user table, a `map` from id to `User`.

- `user_schema.dfy` (module `UserSchema`): `Profile`, `User`, the table, the
  nullable `image` argument, the error variants, and the table invariant
  `WellFormed` (every row under its own non-empty id; emails unique).
- `user_resolvers.dfy` (module `UserResolvers`): each resolver as a function
  from the table and the arguments to an `Outcome` (the result, or the error
  thrown, plus the table afterwards), with its guards, error cases and
  frame stated in its contract, and lemmas relating several calls.
- `user_store.dfy` (module `UserStore`): the table as a field of class
  `Store`; each mutation is a method that runs the resolver's guard reads and
  then either returns a `Failure` with the table untouched or performs
  exactly one write. Each method is proved equal to its function and to keep
  `Valid()` (emails unique).
- `user_requests.dfy` (module `UserRequests`): sequences of mutation
  requests; emails stay unique after any sequence, and two worked scenarios.

JavaScript truthiness is modelled explicitly: an id is "informed" when it is
not the empty string (`Informed`), so `id: ""` is rejected by `updateUser`
and `deleteUser` and skipped by the `users` query, and `withoutTeam` counts
only when it is `true`.

The `image` argument is nullable and optional, so it has three values:
omitted, explicit `null`, or a string. The resolver passes it straight into
Prisma's `data`, and Prisma leaves a field whose value is `undefined`
untouched. So `updateUser` replaces name, email and profile always, clears
the image on `null`, sets it on a string, and keeps the stored image when the
argument is omitted. `updateUser` is therefore a full replace of all four
fields only when `image` is sent, as a string or as `null`. On `createUser`
an omitted and a `null` image both leave the new row's image null, assuming
`image` is a nullable column without a default.

## Model

| member | source | states |
|---|---|---|
| UserResolvers.ListUsers | graphql/types/User.ts:31-49 | the `users` query only ever returns rows of the table, unchanged |
| UserResolvers.ListUsersById | graphql/types/User.ts:35-36 | a non-empty `id` selects exactly the user stored under that id (at most one) and `withoutTeam` has no effect |
| UserResolvers.ListUsersWithoutTeam | graphql/types/User.ts:37-43 | with no truthy `id`, `withoutTeam: true` selects exactly the users whose `teamId` is null |
| UserResolvers.ListUsersAll | graphql/types/User.ts:44-45 | with neither filter every user is selected |
| UserResolvers.ImageOnCreate | graphql/types/User.ts:63 | a new row has an image exactly when the argument gives a string, and then that string |
| UserResolvers.ImageOnUpdate | graphql/types/User.ts:102 | an omitted image argument keeps the stored image; null or a string overwrites it as on create |
| UserResolvers.CreateUser | graphql/types/User.ts:66-86 | fails, with `DuplicateEmail` and the table unchanged, exactly when some user has the email; otherwise adds exactly one row with the given name, email, profile and image and no team, changes no other row, and keeps emails unique |
| UserResolvers.UpdateUser | graphql/types/User.ts:105-142 | empty id gives `IdNotInformed`, unknown id `UserNotFound`; `DuplicateEmail` exactly when the email changes to one in use; succeeds exactly otherwise; any failure leaves the table unchanged; success rewrites name, email, profile and image of that row only, keeps its id and team, and keeps emails unique |
| UserResolvers.DeleteUser | graphql/types/User.ts:154-182 | empty id gives `IdNotInformed`, unknown id `UserNotFound`, a user in a team `UserHasTeam` with that team; succeeds exactly when the id names a user with no team, then removes exactly that row and returns it as it was before; failures leave the table unchanged |
| UserResolvers.CreateWithTakenEmailFails | graphql/types/User.ts:68-76 | after a user is created with an email, creating another user with the same email fails with `DuplicateEmail` and changes nothing |
| UserResolvers.UpdateKeepingEmailNeverDuplicate | graphql/types/User.ts:121-130 | an update that keeps the user's current email always succeeds |
| UserResolvers.UpdateIsIdempotent | graphql/types/User.ts:132-142 | repeating a successful update gives the same user and the same table |
| UserResolvers.DeleteTwiceNotFound | graphql/types/User.ts:159-180 | deleting a user a second time fails with `UserNotFound` |
| UserRequests.Apply | graphql/types/User.ts:53-185 | a rejected mutation request never changes the table |
| UserRequests.RunPreservesWellFormed | graphql/types/User.ts:53-185 | after any sequence of create, update and delete requests, accepted or rejected, emails are still unique and rows sit under their own ids |
| UserRequests.CreatesKeepExistingUsers | graphql/types/User.ts:78-86 | any sequence of creates leaves every existing user present and unchanged |
| UserRequests.DuplicateEmailScenario | graphql/types/User.ts:68-182 | create A; a second create with A's email fails; create B with another email; delete A succeeds and returns A; deleting A again fails as not found |
| UserRequests.TeamMemberDeleteScenario | graphql/types/User.ts:172-180 | a user still in team T cannot be deleted (`UserHasTeam(T)`); the same user with the team reference cleared is deleted |
| UserStore.Store.CreateUser | graphql/types/User.ts:65-87 | the method leaves the table and result `CreateUser` describes: on failure the table is untouched, on success it gains exactly the new row; emails stay unique |
| UserStore.Store.UpdateUser | graphql/types/User.ts:104-143 | the method leaves the table and result `UpdateUser` describes: on failure the table is untouched, on success only that row is replaced and its team kept; emails stay unique |
| UserStore.Store.DeleteUser | graphql/types/User.ts:153-183 | the method leaves the table and result `DeleteUser` describes: on failure the table is untouched, on success exactly that row is removed and returned as read before; emails stay unique |

## Left out

- Cursor pagination of the `users` connection (`first`, `after`, `endCursor`, `hasNextPage`, edge order): it is produced by the `prismaConnection` helper, whose code is not part of this model. `ListUsers` models the selection that runs before paging, as an unordered table.
- UserResolvers.ListUsers: the result is a set of rows; the order in which the database and the paging helper give them is not modelled (the `findMany` calls name no `orderBy`).
- Prisma calls and `async`/`await`: replaced by reads and writes of the in-memory map. Transaction isolation and concurrent duplicate-email races are outside this sequential model; the database's unique constraint on email appears only as the `EmailsUnique` invariant.
- Id generation: the database assigns the new row's id; `CreateUser` takes it as an argument required to be non-empty and unused.
- Exact error messages: each message is one `Error` variant. `UserHasTeam` carries the team id, not the team name the message prints, because teams are not modelled.
- UserResolvers.DeleteUser: the database's own referential checks on the delete at graphql/types/User.ts:176 (a team the user manages, roles or absences pointing at the user) are not modelled, because the schema is not part of this model; the write is treated as always succeeding once the resolver's guards pass.
- The `team` relation read by `deleteUser` is modelled by the row's `teamId` foreign key (a row has a team exactly when `teamId` is set).
- The `roles`, `teamsManaged` and `team` relation fields of the GraphQL `User` object (graphql/types/User.ts:16-18) are read-only projections and are not modelled.
- Team, Role, Absence and AbsenceType rules: their resolvers are not part of this model; only their client query strings exist.
- The React pages and components (absence form, role form, team list, header, chart, teams page): presentation only.
