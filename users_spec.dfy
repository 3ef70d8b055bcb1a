/**
 * Find-or-create of an unregistered user, keyed on the contact handle, as a
 * function of the tables.
 */
module UsersSpec {
  import opened Types
  import opened Tables

  const Registered := "registered"
  const Unregistered := "unregistered"

  /**
   * A registered user with the handle is a conflict; any other user with the
   * handle is returned as is; otherwise exactly one user is created with the
   * handle and the unregistered status, at a fresh id. Nothing but the user
   * table and the counter is touched.
   */
  function CreateUnregisteredUser(db: Db, handle: string): (s: Step<Id>)
    requires Valid(db)
    ensures Valid(s.db)
    ensures s.db.circles == db.circles && s.db.members == db.members
    ensures UsersExtended(db.users, s.db.users)
    ensures forall u :: u in db.users && db.users[u].handle == Some(handle) ==>
              s.db == db &&
              s.result == (if db.users[u].status == Registered then Err(Conflict) else Ok(u))
    ensures (forall u :: u in db.users ==> db.users[u].handle != Some(handle)) ==>
              && s.result == Ok(db.nextId)
              && db.nextId !in db.users
              && s.db == db.(users := db.users[db.nextId := User(Some(handle), Unregistered)], nextId := db.nextId + 1)
    ensures s.result.Ok? ==> s.result.value in s.db.users && s.db.users[s.result.value].handle == Some(handle)
  {
    match FindUserByHandle(db.users, handle)
    case Some(u) =>
      if db.users[u].status == Registered then Step(Err(Conflict), db) else Step(Ok(u), db)
    case None =>
      var id := db.nextId;
      Step(Ok(id), db.(users := db.users[id := User(Some(handle), Unregistered)], nextId := id + 1))
  }

  /**
   * Calling it a second time with the same handle changes nothing and gives
   * the first call's answer, whichever branch the first call took.
   */
  lemma CreateUnregisteredUserIdempotent(db: Db, handle: string)
    requires Valid(db)
    ensures CreateUnregisteredUser(CreateUnregisteredUser(db, handle).db, handle)
            == CreateUnregisteredUser(db, handle)
  {
    var s := CreateUnregisteredUser(db, handle);
    if forall u :: u in db.users ==> db.users[u].handle != Some(handle) {
      assert s.db.users[db.nextId].handle == Some(handle);
      assert Unregistered != Registered;
    }
  }

  /** The user table grows by at most one row. */
  lemma CreateUnregisteredUserGrowsByAtMostOne(db: Db, handle: string)
    requires Valid(db)
    ensures |CreateUnregisteredUser(db, handle).db.users| <= |db.users| + 1
  {
  }
}
