/**
 * The circle and user services as one object over the three tables. Each
 * method changes the tables the way the service's calls do and is proved to
 * leave exactly the tables, and give exactly the answer, that the matching
 * function of the specification modules prescribes.
 */
module Store {
  import opened Types
  import opened Tables
  import opened MemberDtos
  import opened CircleDtos
  import opened Reconcile
  import UsersSpec
  import CirclesSpec

  class CircleStore {
    var circles: map<Id, Circle>
    var members: map<Id, Member>
    var users: map<Id, User>
    var nextId: nat

    /** The tables as a value. */
    ghost function State(): Db
      reads this
    {
      Db(circles, members, users, nextId)
    }

    ghost predicate Valid()
      reads this
    {
      Tables.Valid(State())
    }

    constructor(init: Db)
      requires Tables.Valid(init)
      ensures Valid() && State() == init
    {
      circles := init.circles;
      members := init.members;
      users := init.users;
      nextId := init.nextId;
    }

    /** Draws a fresh id from the counter. */
    method FreshId() returns (id: Id)
      modifies this
      ensures id == old(nextId) && nextId == old(nextId) + 1
      ensures circles == old(circles) && members == old(members) && users == old(users)
    {
      id := nextId;
      nextId := nextId + 1;
    }

    /** Find the user with the handle, or create an unregistered one for it. */
    method CreateUnregisteredUser(handle: string) returns (r: Result<Id>)
      requires Valid()
      modifies this
      ensures Valid()
      ensures Step(r, State()) == UsersSpec.CreateUnregisteredUser(old(State()), handle)
    {
      var existing := FindUserByHandle(users, handle);
      if existing.Some? {
        if users[existing.value].status == UsersSpec.Registered {
          return Err(Conflict);
        }
        return Ok(existing.value);
      }
      var id := FreshId();
      users := users[id := User(Some(handle), UsersSpec.Unregistered)];
      r := Ok(id);
    }

    /** Steps 1 and 2 of add-member: settle on the user the entry names. */
    method ResolveUser(dto: MemberDto) returns (r: Result<Id>)
      requires Valid() && CirclesSpec.HasContact(dto)
      modifies this
      ensures Valid()
      ensures Step(r, State()) == CirclesSpec.ResolveUser(old(State()), dto)
    {
      if dto.userId.Some? {
        if dto.userId.value !in users {
          return Err(BadRequest);
        }
        return Ok(dto.userId.value);
      }
      var found := FindUserByHandle(users, dto.phone.value);
      if found.Some? {
        return Ok(found.value);
      }
      r := CreateUnregisteredUser(dto.phone.value);
    }

    /** Steps 3 to 5 of add-member: the duplicate and slot checks, then the insert. */
    method InsertMember(circleId: Id, userId: Id, dto: MemberDto) returns (r: Result<Id>)
      requires Valid() && userId in users
      modifies this
      ensures Valid()
      ensures Step(r, State()) == CirclesSpec.InsertMember(old(State()), circleId, userId, dto)
    {
      if IsMember(members, circleId, userId) {
        return Err(BadRequest);
      }
      if TruthyNumber(dto.slotNumber) && SlotReserved(members, circleId, dto.slotNumber.value) {
        return Err(Conflict);
      }
      var id := FreshId();
      members := members[id := CirclesSpec.NewRow(circleId, userId, dto)];
      r := Ok(id);
    }

    /**
     * Add a member row for the user the entry names, creating an unregistered
     * user for an unknown phone first.
     */
    method AddMemberToCircle(circleId: Id, dto: MemberDto) returns (r: Result<Id>)
      requires Valid()
      modifies this
      ensures Valid()
      ensures Step(r, State()) == CirclesSpec.AddMember(old(State()), circleId, dto)
    {
      if !CirclesSpec.HasContact(dto) {
        return Err(BadRequest);
      }
      var user := ResolveUser(dto);
      if user.Err? {
        return user;
      }
      r := InsertMember(circleId, user.value, dto);
    }

    /** Delete the row, provided it belongs to the circle. */
    method RemoveMemberFromCircle(circleId: Id, memberId: Id) returns (r: Result<()>)
      requires Valid()
      modifies this
      ensures Valid()
      ensures Step(r, State()) == CirclesSpec.RemoveMember(old(State()), circleId, memberId)
    {
      if memberId !in members || members[memberId].circleId != circleId {
        return Err(BadRequest);
      }
      members := members - {memberId};
      r := Ok(());
    }

    /** The update loop of update-circle over the entries to update. */
    method ApplyUpdates(entries: seq<MemberDto>) returns (r: Result<()>)
      modifies this
      ensures Step(r, State()) == CirclesSpec.ApplyUpdates(old(State()), entries)
    {
      var i := 0;
      while i < |entries|
        invariant 0 <= i <= |entries|
        invariant CirclesSpec.ApplyUpdates(State(), entries[i..]) == CirclesSpec.ApplyUpdates(old(State()), entries)
      {
        var e := entries[i];
        assert entries[i..][0] == e && entries[i..][1..] == entries[i + 1..];
        if e.id.None? || e.id.value !in members {
          return Err(StoreError);
        }
        members := members[e.id.value := CirclesSpec.UpdatedRow(members[e.id.value], e)];
        i := i + 1;
      }
      r := Ok(());
    }

    /** The add loop: add-member for each entry, stopping at the first failure. */
    method AddAll(circleId: Id, entries: seq<MemberDto>) returns (r: Result<()>)
      requires Valid()
      modifies this
      ensures Valid()
      ensures Step(r, State()) == CirclesSpec.AddAll(old(State()), circleId, entries)
    {
      var i := 0;
      while i < |entries|
        invariant 0 <= i <= |entries|
        invariant Valid()
        invariant CirclesSpec.AddAll(State(), circleId, entries[i..]) == CirclesSpec.AddAll(old(State()), circleId, entries)
      {
        assert entries[i..][0] == entries[i] && entries[i..][1..] == entries[i + 1..];
        var added := AddMemberToCircle(circleId, entries[i]);
        if added.Err? {
          return Err(added.error);
        }
        i := i + 1;
      }
      r := Ok(());
    }

    /**
     * Reconcile the circle's members with the requested list (delete, update,
     * add), then write the circle's own fields and its status flag.
     */
    method UpdateCircle(id: Id, dto: UpdateCircleDto) returns (r: Result<()>)
      requires Valid()
      modifies this
      ensures Valid()
      ensures Step(r, State()) == CirclesSpec.UpdateCircle(old(State()), id, dto)
    {
      ghost var before := State();
      CirclesSpec.AfterUpdatesValid(before, id, dto);
      var existing := CirclesSpec.ExistingMembers(members, id);
      var newMembers := dto.members.GetOr([]);
      var toRemove := MembersToRemove(existing, newMembers);
      var toAdd := MembersToAdd(existing, newMembers);
      var toUpdate := MembersToUpdate(existing, newMembers);
      members := members - CirclesSpec.IdsOf(toRemove);
      assert State() == CirclesSpec.AfterRemove(before, id, dto);
      var updated := ApplyUpdates(toUpdate);
      assert Step(updated, State()) == CirclesSpec.AfterUpdates(before, id, dto);
      if updated.Err? {
        return updated;
      }
      var added := AddAll(id, toAdd);
      assert Step(added, State()) == CirclesSpec.AfterAdds(before, id, dto);
      if added.Err? {
        return added;
      }
      if id !in circles {
        return Err(StoreError);
      }
      ghost var afterAdds := State();
      circles := circles[id := CirclesSpec.UpdatedCircle(circles[id], dto)];
      r := Ok(());
      assert State() == afterAdds.(circles := afterAdds.circles[id := CirclesSpec.UpdatedCircle(afterAdds.circles[id], dto)]);
      assert Step(r, State()) == CirclesSpec.UpdateCircle(before, id, dto);
    }

    /**
     * Insert the circle, then add each requested member; any failure is
     * reported as a bad request.
     */
    method CreateCircle(dto: CreateCircleDto) returns (r: Result<Id>)
      requires Valid()
      modifies this
      ensures Valid()
      ensures Step(r, State()) == CirclesSpec.CreateCircle(old(State()), dto)
    {
      ghost var before := State();
      var id := FreshId();
      circles := circles[id := CirclesSpec.NewCircle(dto)];
      assert State() == CirclesSpec.WithCircle(before, dto);
      var added := AddAll(id, dto.members.GetOr([]));
      assert Step(added, State()) == CirclesSpec.AddAll(CirclesSpec.WithCircle(before, dto), id, dto.members.GetOr([]));
      if added.Err? {
        return Err(BadRequest);
      }
      r := Ok(id);
    }

    /** The circle with the id, or a bad request. */
    method GetCircleById(id: Id) returns (r: Result<Circle>)
      ensures r == CirclesSpec.GetCircleById(State(), id)
      ensures r.Ok? ==> id in circles && r.value == circles[id]
    {
      if id !in circles {
        return Err(BadRequest);
      }
      r := Ok(circles[id]);
    }

    /** The circles the user has a row in, optionally only those with the status. */
    method GetAllUserCircles(userId: Id, status: Option<CircleStatus>) returns (r: set<Id>)
      ensures r == CirclesSpec.UserCircles(State(), userId, status)
      ensures forall c :: c in r ==>
                c in circles && IsMember(members, c, userId) && (status.Some? ==> circles[c].status == status.value)
      ensures forall c ::
                (c in circles && IsMember(members, c, userId) &&
                 (status.None? || circles[c].status == status.value))
                ==> c in r
    {
      r := set c | c in circles && (status.None? || circles[c].status == status.value) &&
                   IsMember(members, c, userId);
    }
  }
}
