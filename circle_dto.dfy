/**
 * The create-circle and update-circle payloads with their validation rules.
 */
module CircleDtos {
  import opened Types
  import opened MemberDtos

  datatype CreateCircleDto = CreateCircleDto(
    name: string,
    ownerId: Id,
    duration: Number,
    amount: Number,
    startDate: Date,
    endDate: Option<Date>,
    status: Option<CircleStatus>,
    members: Option<seq<MemberDto>>)

  /** The update payload has no `amount`, and only `duration` is required. */
  datatype UpdateCircleDto = UpdateCircleDto(
    name: Option<string>,
    ownerId: Option<Id>,
    duration: Number,
    startDate: Option<Date>,
    endDate: Option<Date>,
    status: Option<CircleStatus>,
    members: Option<seq<MemberDto>>)

  /** `IsInt` on a JavaScript number. */
  predicate IsInt(n: Number) {
    n.Floor as real == n
  }

  /** `ValidateNested({ each: true })` over a member list. */
  predicate AllValid(ms: seq<MemberDto>) {
    forall k :: 0 <= k < |ms| ==> ValidMemberDto(ms[k])
  }

  predicate ValidCreateCircleDto(d: CreateCircleDto) {
    && d.name != ""
    && IsInt(d.duration) && d.duration >= 1.0
    && IsInt(d.amount) && d.amount >= 1000.0
    && (d.members.Some? ==> |d.members.value| >= 1 && AllValid(d.members.value))
  }

  predicate ValidUpdateCircleDto(d: UpdateCircleDto) {
    && IsInt(d.duration) && d.duration >= 1.0
    && (d.members.Some? ==> AllValid(d.members.value))
  }

  /**
   * What a valid create payload guarantees: a non-empty name, whole-number
   * duration and amount at their minimums, and, when a member list is sent,
   * at least one entry, each itself valid.
   */
  lemma ValidCreateCircleGuarantees(d: CreateCircleDto, k: nat)
    requires ValidCreateCircleDto(d)
    ensures |d.name| > 0
    ensures IsInt(d.duration) && IsInt(d.amount)
    ensures d.duration.Floor >= 1 && d.amount.Floor >= 1000
    ensures d.members.Some? ==> d.members.value != []
    ensures d.members.Some? && k < |d.members.value| ==> ValidMemberDto(d.members.value[k])
  {
  }

  /** A fractional duration is rejected by both payloads. */
  lemma FractionalDurationRejected(c: CreateCircleDto, u: UpdateCircleDto)
    requires c.duration == 1.5 && u.duration == 1.5
    ensures !ValidCreateCircleDto(c) && !ValidUpdateCircleDto(u)
  {
    assert (1.5).Floor == 1;
  }

  /**
   * An update payload may leave out every member list and every optional
   * field; only the duration decides its validity then. An empty member list
   * is accepted on update, unlike on create.
   */
  lemma UpdateOnlyNeedsDuration(d: UpdateCircleDto)
    requires d.members.None? || d.members == Some([])
    ensures ValidUpdateCircleDto(d) <==> IsInt(d.duration) && d.duration >= 1.0
  {
  }

  /** An empty member list is refused on create. */
  lemma EmptyMemberListRefusedOnCreate(d: CreateCircleDto)
    requires d.members == Some([])
    ensures !ValidCreateCircleDto(d)
  {
  }
}
