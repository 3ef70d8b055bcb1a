/**
 * The persistence layer as a value: three tables keyed by id and the counter
 * fresh ids come from, the invariants the service keeps on them, and the
 * lookups the service issues against them.
 */
module Tables {
  import opened Types

  datatype Db = Db(
    circles: map<Id, Circle>,
    members: map<Id, Member>,
    users: map<Id, User>,
    nextId: nat)

  /** What an operation returns, together with the tables it leaves behind. */
  datatype Step<+T> = Step(result: Result<T>, db: Db)

  /** Every id in use is below the counter, so the counter is always fresh. */
  predicate IdsBelowCounter(db: Db) {
    && (forall k :: k in db.circles ==> k < db.nextId)
    && (forall k :: k in db.members ==> k < db.nextId)
    && (forall k :: k in db.users ==> k < db.nextId)
  }

  /**
   * No two users share a contact handle (the handle column is unique); any
   * number of users may have none.
   */
  predicate HandlesUnique(users: map<Id, User>) {
    forall a, b :: a in users && b in users && a != b && users[a].handle.Some? ==> users[a].handle != users[b].handle
  }

  /** Every membership row names a user that exists. */
  predicate MembersHaveUsers(db: Db) {
    forall m :: m in db.members ==> db.members[m].userId in db.users
  }

  /** One row per (circle, user) pair. */
  predicate OneRowPerUser(members: map<Id, Member>) {
    forall a, b ::
      a in members && b in members && a != b && members[a].circleId == members[b].circleId
      ==> members[a].userId != members[b].userId
  }

  /**
   * No two rows of one circle share a truthy slot number. An absent slot or
   * slot 0 is not guarded.
   */
  predicate SlotsUnique(members: map<Id, Member>) {
    forall a, b ::
      a in members && b in members && a != b && members[a].circleId == members[b].circleId &&
      TruthyNumber(members[a].slotNumber)
      ==> members[a].slotNumber != members[b].slotNumber
  }

  /** The invariant every operation of the service preserves. */
  predicate Valid(db: Db) {
    && IdsBelowCounter(db)
    && HandlesUnique(db.users)
    && MembersHaveUsers(db)
    && OneRowPerUser(db.members)
  }

  /** `user.findUnique({ where: { <handle>: h } })`. */
  function FindUserByHandle(users: map<Id, User>, h: string): (r: Option<Id>)
    requires HandlesUnique(users)
    ensures r.Some? ==> r.value in users && users[r.value].handle == Some(h)
    ensures r.None? ==> forall u :: u in users ==> users[u].handle != Some(h)
  {
    if exists u :: u in users && users[u].handle == Some(h) then
      var u :| u in users && users[u].handle == Some(h);
      Some(u)
    else
      None
  }

  /** `circleMember.findFirst({ where: { circleId, userId } })` finds a row. */
  predicate IsMember(members: map<Id, Member>, circleId: Id, userId: Id) {
    exists m :: m in members && members[m].circleId == circleId && members[m].userId == userId
  }

  /** `circleMember.findFirst({ where: { circleId, slotNumber } })` finds a row. */
  predicate SlotReserved(members: map<Id, Member>, circleId: Id, slot: Number) {
    exists m :: m in members && members[m].circleId == circleId && members[m].slotNumber == Some(slot)
  }

  /** The slot part of add-member passes: no truthy slot asked, or it is unused in the circle. */
  predicate SlotFree(members: map<Id, Member>, circleId: Id, slot: Option<Number>) {
    TruthyNumber(slot) ==> !SlotReserved(members, circleId, slot.value)
  }

  /** Users are never changed in place by the service; the table only grows. */
  predicate UsersExtended(before: map<Id, User>, after: map<Id, User>) {
    forall u :: u in before ==> u in after && after[u] == before[u]
  }

  /** Rows present before are still present and unchanged. */
  predicate RowsKept(before: map<Id, Member>, after: map<Id, Member>) {
    forall m :: m in before ==> m in after && after[m] == before[m]
  }
}
