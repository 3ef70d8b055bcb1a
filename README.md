# Circle membership engine of cash-circle-be, in Dafny

cash-circle-be is the back end of a savings-circle app. A **circle** is a
group of users who pay in an agreed amount over an agreed duration. A
**member** row links one user to one circle, with an optional slot number, a
membership status, a payment status, a payout date and fees. A **user** can
exist before signing up: adding a member by phone number creates an
*unregistered* placeholder user.

This project models the engine that maintains these tables:

- `addMemberToCircle` settles on a user. It takes the explicit user id, or the
  user with the phone, or a newly created unregistered user. It then refuses a
  second row for the same (circle, user) pair, refuses a slot that is already
  taken, and inserts one row.
- `removeMemberFromCircle` deletes a row, but only one that belongs to the
  given circle.
- `updateCircle` compares the circle's rows with a requested member list. It
  deletes the rows whose user is no longer listed, updates the rows whose user
  still is, and adds the new entries. Then it writes the circle's own fields
  and a status flag derived from the list.
- `createCircle` inserts a circle and then adds its members one by one.
- `createUnregisteredUser` finds or creates a user by contact handle.
- `getCircleById` and the filter of `getAllUserCircles` are the read paths.
- The request payloads and their validation rules are modelled too.

The model has two layers:

- **Specification functions.** The modules `UsersSpec` and `CirclesSpec`
  describe each operation as a function from the tables (`Tables.Db`) to a
  `Step`. A `Step` is the answer (`Ok` or one error kind) together with the
  tables the call leaves behind. The properties the service promises are
  proved about these functions.
- **The store.** `Store.CircleStore` is a class that holds the three tables
  and the id counter as fields. Its methods change those fields in the same
  step-by-step way as the service, using the same loops. Each method is proved
  to return exactly the answer, and leave exactly the tables, that its
  specification function gives.

The store keeps an invariant, `Tables.Valid`:

- every id is below the counter;
- no two users share a contact handle (a user may have none);
- every row names an existing user;
- there is at most one row per (circle, user) pair.

A second predicate, `Tables.SlotsUnique`, says that no two rows of a circle
share a non-zero slot. Add-member, create-circle and remove-member preserve
it. The update loop does not, because it writes slots without checking them.

Modelling conventions:

- **Ids.** All three tables draw fresh ids from one counter.
- **Truthiness.** An optional string is truthy when it is present and not
  empty. An optional number is truthy when it is present and not zero.
- **Absent fields.** A field the code passes on as `undefined` is not
  written: the row keeps its stored value (`Merge`). A field the code
  defaults with `||` is always written. Update-circle, for example, writes
  PENDING for a left-out member status or payment status.
- **Handles.** A user's contact handle is optional; handles that are present
  are unique.
- **Errors.** Errors are values, not exceptions. `BadRequest` and `Conflict`
  are the service's two exceptions. `StoreError` stands for the store
  refusing an update whose `where` names no row.

## Model

| member | source | states |
|---|---|---|
| MemberDtos.ValidMemberDto | src/circles/dto/member.dto.ts:6-52 | the member payload's rules: without a user id, the phone and userName must be present strings; every other field is optional, and its type already carries its `IsString`, `IsNumber`, `IsEnum` or `IsDate` rule |
| MemberDtos.UserIdAloneIsValid | src/circles/dto/member.dto.ts:12-25 | a payload that names a user id is valid whatever else it leaves out: the phone and userName rules apply only without a user id |
| MemberDtos.ValidDoesNotImplyTruthyPhone | src/circles/dto/member.dto.ts:17-20 | a valid payload without a user id can still carry the empty phone, which add-member treats as no contact |
| CircleDtos.ValidCreateCircleDto | src/circles/dto/circle.dto.ts:7-48 | the create payload's rules: a non-empty name, an integer duration of at least 1, an integer amount of at least 1000, and, if a member list is sent, at least one entry, each of them valid |
| CircleDtos.ValidUpdateCircleDto | src/circles/dto/circle.dto.ts:51-89 | the update payload's rules: an integer duration of at least 1, and, if a member list is sent, each entry valid; name, owner, dates, status and the list are optional, and there is no amount |
| CircleDtos.ValidCreateCircleGuarantees | src/circles/dto/circle.dto.ts:7-48 | a valid create payload has a non-empty name, a duration and an amount that are whole numbers, of at least 1 and at least 1000, and, if a member list is sent, at least one entry, each of them valid |
| CircleDtos.FractionalDurationRejected | src/circles/dto/circle.dto.ts:17-20 | a duration of 1.5 is refused by both the create and the update payload |
| CircleDtos.UpdateOnlyNeedsDuration | src/circles/dto/circle.dto.ts:51-89 | with no member list, or an empty one, an update payload is valid exactly when its duration is a whole number of at least 1; every other field is optional and there is no amount |
| CircleDtos.EmptyMemberListRefusedOnCreate | src/circles/dto/circle.dto.ts:43-48 | an empty member list is refused on create |
| Reconcile.MembersToRemove | src/circles/circles.service.ts:165-167 | the rows to delete are existing rows, and an existing row is among them exactly when no entry of the request names its user |
| Reconcile.MembersToAdd | src/circles/circles.service.ts:170-172 | an entry is to be added exactly when it is in the request and matches no existing row by user id |
| Reconcile.MembersToUpdate | src/circles/circles.service.ts:175-177 | an entry is to be updated exactly when it is in the request and matches an existing row by user id |
| Reconcile.AddAndUpdatePartition | src/circles/circles.service.ts:170-177 | the add and update lists split the request: their lengths add up to its length and, as multisets, they add up to the request |
| Reconcile.EntryWithoutUserIdIsAdded | src/circles/circles.service.ts:170-177 | an entry without a user id is always added and never updated |
| Reconcile.OmittedListRemovesAll | src/circles/circles.service.ts:162-177 | an omitted list reads as empty: every existing row is deleted and nothing is added or updated |
| Reconcile.RemoveOrUpdate | src/circles/circles.service.ts:165-177 | each existing row is either deleted or matched by some entry of the update list, never both |
| Reconcile.AllConfirmed | src/circles/circles.service.ts:208 | `every` over the entries: true exactly when each entry asks for CONFIRMED |
| Reconcile.StatusFlag | src/circles/circles.service.ts:208-218 | the stored status is ACTIVE exactly when a list was sent and all its entries ask for CONFIRMED, and PENDING otherwise; it is never COMPLETED |
| Reconcile.EmptyListIsActive | src/circles/circles.service.ts:208 | an empty list gives ACTIVE, an omitted one PENDING |
| Tables.FindUserByHandle | src/circles/circles.service.ts:269 | the lookup by unique contact handle: the user with the handle when there is one, and none only when no user has it |
| UsersSpec.CreateUnregisteredUser | src/users/users.service.ts:21-41 | a registered user with the handle gives Conflict and writes nothing; any other user with the handle is returned and nothing is written; otherwise exactly one user with the handle and status unregistered is created at a fresh id; circles and members are untouched and the invariant is kept |
| UsersSpec.CreateUnregisteredUserIdempotent | src/users/users.service.ts:23-40 | a second call with the same handle gives the first call's answer and the same tables |
| UsersSpec.CreateUnregisteredUserGrowsByAtMostOne | src/users/users.service.ts:34-40 | the user table grows by at most one row |
| CirclesSpec.ResolveUser | src/circles/circles.service.ts:258-279 | a given user id must name a user, with no fallback to the phone; without one, the phone's user is reused, or one unregistered user is created for it; nothing else is written |
| CirclesSpec.NewRow | src/circles/circles.service.ts:305-312 | the row add-member inserts: circle, user and slot from the call, the status defaulting to PENDING; payment status, payout date and fees are left to the table's defaults |
| CirclesSpec.InsertMember | src/circles/circles.service.ts:281-312 | an existing row for the (circle, user) pair gives BadRequest, a non-zero slot held in the circle gives Conflict, both with the tables unchanged; otherwise exactly one row is inserted at a fresh id and truthy slots stay unique |
| CirclesSpec.AddMember | src/circles/circles.service.ts:250-313 | no user id and no truthy phone, or an unknown user id, give BadRequest before any write; the user table gains exactly one unregistered user when the phone is unknown and is otherwise unchanged; success holds exactly when a user was settled on, is not yet in the circle and any non-zero slot is free; on failure the member table is unchanged; on success one row with the circle, the user, the slot and the status (default PENDING) is added; the invariant and slot uniqueness are kept |
| CirclesSpec.AddMemberAddsOneRow | src/circles/circles.service.ts:305-312 | a successful add-member grows the member table by exactly one row |
| CirclesSpec.SlotZeroIsNotGuarded | src/circles/circles.service.ts:291-302 | two members of one circle can both be given slot 0, because a zero slot skips the check |
| CirclesSpec.RemoveMember | src/circles/circles.service.ts:315-327 | fails with BadRequest and deletes nothing when the row is missing or belongs to another circle; otherwise deletes exactly that row and nothing else |
| CirclesSpec.UpdatedRow | src/circles/circles.service.ts:190-199 | a member update never changes the row's circle or user; status and payment status are always written, defaulting to PENDING; slot, payout date and fees are written when given and kept when left out |
| CirclesSpec.ApplyUpdates | src/circles/circles.service.ts:189-200 | the update loop keeps the set of rows, each row's circle and user, and the other tables; it can fail only with a store error |
| CirclesSpec.ApplyUpdatesOutcome | src/circles/circles.service.ts:189-200 | the update loop succeeds exactly when every entry's own id names an existing row, and a row no entry names is unchanged |
| CirclesSpec.ApplyUpdatesKeepsValid | src/circles/circles.service.ts:189-200 | the update loop keeps the invariant |
| CirclesSpec.LastUpdateWins | src/circles/circles.service.ts:189-200 | when several entries name one row, the row ends with the status of the last of them |
| CirclesSpec.ApplyUpdatesConfirms | src/circles/circles.service.ts:189-200 | when every entry asks for CONFIRMED, every row named by an entry ends CONFIRMED |
| CirclesSpec.AddAll | src/circles/circles.service.ts:203-205 | the add loop keeps the invariant |
| CirclesSpec.AddAllFrame | src/circles/circles.service.ts:203-205 | the add loop leaves the circle table alone, keeps every row and user it found, adds only rows of this circle at fresh ids, and fails only with BadRequest or Conflict |
| CirclesSpec.AddAllKeepsSlotsUnique | src/circles/circles.service.ts:291-302 | the add loop keeps non-zero slots unique within each circle |
| CirclesSpec.AddAllAddsEveryEntry | src/circles/circles.service.ts:203-205 | when the add loop succeeds, every entry's user has a row in the circle |
| CirclesSpec.AddAllNewRowsConfirmed | src/circles/circles.service.ts:310 | when every entry asks for CONFIRMED, every row the add loop creates is CONFIRMED |
| CirclesSpec.ExistingMembers | src/circles/circles.service.ts:157-160 | the (id, userId) pairs read first are exactly the rows of the circle |
| CirclesSpec.UpdatedCircle | src/circles/circles.service.ts:210-220 | the circle's amount and owner never change and its duration is always written; the name, start date and end date are written when given and kept when left out; the status comes from the status flag, whatever status the payload carries |
| CirclesSpec.UpdateCircle | src/circles/circles.service.ts:155-222 | update-circle keeps the store's invariant, whatever its answer; when it fails and with which error is stated by `CirclesSpec.UpdateCircleOutcome` |
| CirclesSpec.UpdateCircleOutcome | src/circles/circles.service.ts:179-221 | the call fails with a store error exactly when an entry of the update list has no id or names no row left after the delete phase, or when the adds succeed on a circle id the table lacks; BadRequest and Conflict come only from the add loop; otherwise it succeeds |
| CirclesSpec.UpdateCircleWritesCircle | src/circles/circles.service.ts:207-220 | after a successful update, the circle table differs only in this circle's fields, and the circle is ACTIVE exactly when a list was sent whose entries all ask for CONFIRMED |
| CirclesSpec.UpdateCircleRemovesUnlisted | src/circles/circles.service.ts:164-186 | after a successful update, no row of the circle whose user the list omits is left |
| CirclesSpec.UpdateCircleKeepsRequested | src/circles/circles.service.ts:162-205 | after a successful update, every requested entry's user has a row in the circle |
| CirclesSpec.UpdateCircleSparesOthers | src/circles/circles.service.ts:188-200 | after a successful update, a row of another circle is unchanged unless some entry's own id names it |
| CirclesSpec.UpdateCircleActiveMeansConfirmed | src/circles/circles.service.ts:189-218 | when each entry that matched a row carries that row's id, a successful update that stored ACTIVE left every row of the circle CONFIRMED |
| CirclesSpec.UpdatedRowConfirmed | src/circles/circles.service.ts:182-200 | under the same condition, every row of the circle that survives the delete phase ends the update loop CONFIRMED |
| CirclesSpec.ActiveWithPendingRow | src/circles/circles.service.ts:189-218 | without that condition, a successful update can store ACTIVE while a row of the circle stays PENDING, and can confirm a row of another circle instead |
| CirclesSpec.NewCircle | src/circles/circles.service.ts:30-47 | the circle row create-circle inserts: the payload's fields without the member list, and PENDING when no status is given |
| CirclesSpec.UpdateCircleNotIdempotent | src/circles/circles.service.ts:170-191 | a second update with the same list can fail where the first succeeded: an entry added by user id matches its new row the next time and goes to the update loop without a row id, so the call fails with a store error |
| CirclesSpec.WithCircle | src/circles/circles.service.ts:33-47 | the new circle goes in at a fresh id; members and users are untouched |
| CirclesSpec.CreateCircle | src/circles/circles.service.ts:28-60 | the circle row is inserted at the fresh id and stays even when adding a member fails; every failure is reported as BadRequest; existing rows and users are kept, and new rows belong to the new circle; the invariant is kept |
| CirclesSpec.CreateCircleAddsEveryEntry | src/circles/circles.service.ts:49-54 | a successful create gave every requested entry's user a row in the new circle |
| CirclesSpec.CreateCircleKeepsSlotsUnique | src/circles/circles.service.ts:49-54 | create-circle keeps non-zero slots unique within each circle |
| CirclesSpec.GetCircleById | src/circles/circles.service.ts:125-153 | the circle is found exactly when its id is in the table, and the stored circle is returned; otherwise BadRequest |
| CirclesSpec.UserCircles | src/circles/circles.service.ts:90-101 | a circle is listed exactly when it is in the table, the user has a row in it and, if a status is given, it has that status |
| CirclesSpec.CreatedCircleIsFound | src/circles/circles.service.ts:125-153 | a created circle is found by id with the payload's fields, whether or not its members went in; the id was free before |
| CirclesSpec.AddedMemberListsCircle | src/circles/circles.service.ts:90-101 | after a successful add-member, the circle is among the user's circles |
| CirclesSpec.RemovedMemberDropsCircle | src/circles/circles.service.ts:315-327 | after removing a user's row, the circle is no longer among that user's circles |
| CirclesSpec.StatusFilterNarrows | src/circles/circles.service.ts:94 | the status filter keeps exactly the user's circles with that status |
| Store.CircleStore.CreateUnregisteredUser | src/users/users.service.ts:21-41 | the store's find-or-create gives the answer and the tables of `UsersSpec.CreateUnregisteredUser` and keeps the invariant |
| Store.CircleStore.ResolveUser | src/circles/circles.service.ts:258-279 | the store's user resolution agrees with `CirclesSpec.ResolveUser` |
| Store.CircleStore.InsertMember | src/circles/circles.service.ts:281-312 | the store's checks and insert agree with `CirclesSpec.InsertMember` |
| Store.CircleStore.AddMemberToCircle | src/circles/circles.service.ts:250-313 | the store's add-member agrees with `CirclesSpec.AddMember` and keeps the invariant |
| Store.CircleStore.RemoveMemberFromCircle | src/circles/circles.service.ts:315-327 | the store's remove-member agrees with `CirclesSpec.RemoveMember` |
| Store.CircleStore.ApplyUpdates | src/circles/circles.service.ts:189-200 | the store's update loop agrees with `CirclesSpec.ApplyUpdates` |
| Store.CircleStore.AddAll | src/circles/circles.service.ts:203-205 | the store's add loop agrees with `CirclesSpec.AddAll` |
| Store.CircleStore.UpdateCircle | src/circles/circles.service.ts:155-222 | the store's update-circle agrees with `CirclesSpec.UpdateCircle` and keeps the invariant |
| Store.CircleStore.CreateCircle | src/circles/circles.service.ts:28-60 | the store's create-circle agrees with `CirclesSpec.CreateCircle` |
| Store.CircleStore.GetCircleById | src/circles/circles.service.ts:125-153 | the store's lookup agrees with `CirclesSpec.GetCircleById`, and a found circle is the stored one |
| Store.CircleStore.GetAllUserCircles | src/circles/circles.service.ts:90-120 | the store's filter agrees with `CirclesSpec.UserCircles`, and lists exactly the circles in which the user has a row and that, if a status is given, have it |

Behaviour of the code worth knowing:

- The status flag is computed from the request, not from the stored rows. An
  empty requested list gives ACTIVE. The update loop follows each entry's own
  `id`, so ACTIVE can be stored while a row of the circle is still PENDING
  (`CirclesSpec.ActiveWithPendingRow`). ACTIVE implies that every row of the
  circle is CONFIRMED only when each entry carries the id of its user's row
  (`CirclesSpec.IdsMatchRows`, proved in
  `CirclesSpec.UpdateCircleActiveMeansConfirmed`).
- Update-circle is not idempotent. After one call adds a user by user id, a
  second call with the same list matches that user's new row through the
  user id. The entry then lands in the update list without a row id, and the
  update fails (`CirclesSpec.UpdateCircleNotIdempotent`).
- `createUnregisteredUser` looks users up and creates them by `email`, but
  add-member passes only a phone (src/users/dto/user.dto.ts:22-25). Both sides
  are modelled with one abstract contact handle, `User.handle`.
- An existing member with the same user is refused with BadRequest, not
  Conflict (src/circles/circles.service.ts:286-288).

## Left out

- Rollback and isolation: the comment on create-circle promises a
  transaction, but there is none. In update-circle only the delete, the
  updates and the final circle write go through the transaction client; the
  adds do not. The model runs every call as one sequence of writes, visible
  at once, with nothing undone. In the code, add-member inside update-circle
  reads through the client outside the transaction, so it still sees the rows
  the delete phase removed. Two visible differences follow. A phone-only
  entry for a user who already has a row in the circle, and whom no entry
  names by user id: the model deletes
  that row and adds the user again at a fresh id, while the code answers
  BadRequest (src/circles/circles.service.ts:285-287). Removing one member
  and adding another at the removed member's slot in the same call: the model
  succeeds, while the code answers Conflict (src/circles/circles.service.ts:299-301).
  The adds also do not see the update loop's uncommitted slot writes
  (src/circles/circles.service.ts:189-199). An update that moves a row to
  slot 3 while a new entry asks for slot 3: the model answers Conflict, while
  the code still sees the old slot, inserts, and leaves two rows at slot 3.
  An update that moves a row off a slot while a new entry takes that slot:
  the model succeeds, while the code answers Conflict.
- CirclesSpec.UpdateCircle: when it fails after the delete or update phase,
  the model keeps those writes. The real transaction would undo its own part
  of them.
- Store.CircleStore.UpdateCircle: the same holds for the store method.
- Concurrency: the check-then-insert race in add-member is not modelled.
- Database-side constraints are not modelled: foreign keys, cascading deletes
  and unique indexes. Rows may name a circle the table lacks. The invariants
  the code itself keeps are stated instead. The Prisma schema is not part of
  this model.
- Database defaults are assumed to be PENDING: a new circle's status when the
  payload gives none, and a new row's payment status. Payout date and fees on
  a new row are assumed empty.
- `deleteCircle`: it is a bare delete whose cascade happens in the database.
- `getAllCircles`: it is an unfiltered read.
- The include/select projections of the read paths are not modelled.
  Store.CircleStore.GetAllUserCircles returns circle ids, not records with
  members and owner.
- CirclesSpec.UpdateCircle: it answers `Ok(())`, not the updated circle
  record the code returns (src/circles/circles.service.ts:210). The record is
  the stored circle, readable with `CirclesSpec.GetCircleById`.
- CirclesSpec.CreateCircle: it returns the new circle's id, not the circle
  object with its (always empty) member list.
- Slot uniqueness for update-circle: the update loop writes slots unchecked,
  so only add-member, create-circle and remove-member are proved to keep
  `SlotsUnique`.
- `MemberUpdateDto` is imported but never defined
  (src/circles/dto/circle.dto.ts:3, 86). Update entries use `MemberDto`.
- `userName` is validated but never used, so it stays in the payload and is
  read by nothing.
- Line 277 of add-member is unreachable, and the model has no branch for it.
- An empty-string `userId` behaves like an absent one: it is falsy, and it
  never equals a stored id. The model's `Option<Id>` covers both cases as
  `None`.
- JSON `null` versus absent fields, NaN and infinite numbers, and date
  arithmetic are not modelled. Dates and fees are opaque values that are only
  copied.
- Validation runs before the service in the real system. The service
  functions do not require valid payloads, because the service itself does
  not check them.
- The HTTP controllers, modules and Prisma wiring are not part of this model.
  This includes the controller's call to a non-existent
  `updateMemberFromCircle`.
- `editUser` is a spread into an ORM update, and it is not part of this model.
- The authentication code (password hashing, tokens, strategies) consists of
  foreign library calls, and it is not part of this model.
- The response payload classes are not part of this model.
