/**
 * The member payload accepted by add-member, create-circle and update-circle,
 * with the validation rules declared on it.
 */
module MemberDtos {
  import opened Types

  /**
   * Every field is as declared on the payload class. `Option` fields are the
   * ones that may be absent; a field's type already guarantees what its
   * `IsString`, `IsNumber`, `IsDate` and `IsEnum` rules check.
   */
  datatype MemberDto = MemberDto(
    id: Option<Id>,
    userId: Option<Id>,
    phone: Option<string>,
    userName: Option<string>,
    slotNumber: Option<Number>,
    status: Option<MemberStatus>,
    paymentStatus: Option<PaymentStatus>,
    payoutDate: Option<Date>,
    adminFees: Option<Number>)

  /**
   * The conditional rules: `phone` and `userName` are validated only when
   * `userId` is absent, and then they must be present strings.
   */
  predicate ValidMemberDto(d: MemberDto) {
    d.userId.None? ==> d.phone.Some? && d.userName.Some?
  }

  /** A payload naming only a user id is valid whatever else it omits. */
  lemma UserIdAloneIsValid(d: MemberDto)
    requires d.userId.Some?
    ensures ValidMemberDto(d)
  {
  }

  /**
   * Validation does not guarantee a usable contact: a valid payload without a
   * user id may still carry the empty phone, which the service treats as absent.
   */
  lemma ValidDoesNotImplyTruthyPhone()
    ensures var d := MemberDto(None, None, Some(""), Some(""), None, None, None, None, None);
            ValidMemberDto(d) && !TruthyString(d.phone) && d.userId.None?
  {
  }
}
