/**
 * The pure part of update-circle: the three-way diff between a circle's
 * existing member rows and the requested member list, and the circle status
 * flag derived from the request.
 */
module Reconcile {
  import opened Types
  import opened MemberDtos

  /** The projection of an existing member row the diff works on. */
  datatype ExistingMember = ExistingMember(id: Id, userId: Id)

  /** Some entry of the requested list names this user. */
  predicate InTarget(userId: Id, newMembers: seq<MemberDto>) {
    exists k :: 0 <= k < |newMembers| && newMembers[k].userId == Some(userId)
  }

  /** Some existing row belongs to the user this entry names. */
  predicate MatchesExisting(entry: MemberDto, existing: set<ExistingMember>) {
    exists e :: e in existing && entry.userId == Some(e.userId)
  }

  /** Rows to delete: existing rows whose user the request no longer names. */
  function MembersToRemove(existing: set<ExistingMember>, newMembers: seq<MemberDto>): (r: set<ExistingMember>)
    ensures r <= existing
    ensures forall e :: e in existing ==>
              (e in r <==> forall k :: 0 <= k < |newMembers| ==> newMembers[k].userId != Some(e.userId))
  {
    set e | e in existing && !InTarget(e.userId, newMembers)
  }

  /** Entries to add, in request order: those matching no existing row. */
  function MembersToAdd(existing: set<ExistingMember>, newMembers: seq<MemberDto>): (r: seq<MemberDto>)
    ensures |r| <= |newMembers|
    ensures forall x :: x in r <==> x in newMembers && !MatchesExisting(x, existing)
  {
    if newMembers == [] then []
    else
      var rest := MembersToAdd(existing, newMembers[1..]);
      if MatchesExisting(newMembers[0], existing) then rest else [newMembers[0]] + rest
  }

  /** Entries to update, in request order: those matching an existing row. */
  function MembersToUpdate(existing: set<ExistingMember>, newMembers: seq<MemberDto>): (r: seq<MemberDto>)
    ensures |r| <= |newMembers|
    ensures forall x :: x in r <==> x in newMembers && MatchesExisting(x, existing)
  {
    if newMembers == [] then []
    else
      var rest := MembersToUpdate(existing, newMembers[1..]);
      if MatchesExisting(newMembers[0], existing) then [newMembers[0]] + rest else rest
  }

  /**
   * The add and update lists split the request between them: together they
   * hold every entry exactly as often as the request does.
   */
  lemma {:induction false} AddAndUpdatePartition(existing: set<ExistingMember>, newMembers: seq<MemberDto>)
    ensures |MembersToAdd(existing, newMembers)| + |MembersToUpdate(existing, newMembers)| == |newMembers|
    ensures multiset(MembersToAdd(existing, newMembers)) + multiset(MembersToUpdate(existing, newMembers))
            == multiset(newMembers)
  {
    if newMembers != [] {
      AddAndUpdatePartition(existing, newMembers[1..]);
      assert newMembers == [newMembers[0]] + newMembers[1..];
    }
  }

  /** An entry without a user id matches nothing, so it is always added. */
  lemma EntryWithoutUserIdIsAdded(existing: set<ExistingMember>, newMembers: seq<MemberDto>, k: nat)
    requires k < |newMembers| && newMembers[k].userId.None?
    ensures newMembers[k] in MembersToAdd(existing, newMembers)
    ensures newMembers[k] !in MembersToUpdate(existing, newMembers)
  {
  }

  /** Omitting the member list (read as the empty list) removes every existing row. */
  lemma OmittedListRemovesAll(existing: set<ExistingMember>)
    ensures MembersToRemove(existing, []) == existing
    ensures MembersToAdd(existing, []) == [] && MembersToUpdate(existing, []) == []
  {
  }

  /**
   * Each existing row is either removed or named by some entry of the
   * update list, never both.
   */
  lemma RemoveOrUpdate(existing: set<ExistingMember>, newMembers: seq<MemberDto>, e: ExistingMember)
    requires e in existing
    ensures e in MembersToRemove(existing, newMembers)
            <==> !exists x :: x in MembersToUpdate(existing, newMembers) && x.userId == Some(e.userId)
  {
    if e !in MembersToRemove(existing, newMembers) {
      var k :| 0 <= k < |newMembers| && newMembers[k].userId == Some(e.userId);
      assert MatchesExisting(newMembers[k], existing);
      assert newMembers[k] in MembersToUpdate(existing, newMembers);
    }
  }

  /** `every` over the entries: each one asks for the CONFIRMED status. */
  function AllConfirmed(entries: seq<MemberDto>): (r: bool)
    ensures r <==> forall k :: 0 <= k < |entries| ==> entries[k].status == Some(MemberStatus.Confirmed)
  {
    if entries == [] then true
    else entries[0].status == Some(MemberStatus.Confirmed) && AllConfirmed(entries[1..])
  }

  /**
   * The status update-circle stores: ACTIVE exactly when a member list was
   * sent and each of its entries asks for CONFIRMED (so an empty list gives
   * ACTIVE), PENDING otherwise. It never yields COMPLETED.
   */
  function StatusFlag(newMembers: Option<seq<MemberDto>>): (r: CircleStatus)
    ensures r == CircleStatus.Active <==>
              newMembers.Some? &&
              forall k :: 0 <= k < |newMembers.value| ==> newMembers.value[k].status == Some(MemberStatus.Confirmed)
    ensures r != CircleStatus.Active ==> r == CircleStatus.Pending
  {
    if newMembers.Some? && AllConfirmed(newMembers.value) then CircleStatus.Active else CircleStatus.Pending
  }

  /** The empty list counts as all-confirmed; an omitted list does not. */
  lemma EmptyListIsActive()
    ensures StatusFlag(Some([])) == CircleStatus.Active
    ensures StatusFlag(None) == CircleStatus.Pending
  {
  }
}
