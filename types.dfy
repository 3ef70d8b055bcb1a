/**
 * Shared vocabulary of the circle service: row identifiers, the enums of the
 * persistence schema, the three row shapes, and the result type the service
 * operations return instead of throwing.
 */
module Types {

  /** Row identifier. The store hands out fresh ones from a counter. */
  type Id = nat

  /** A JavaScript `number` (NaN and infinities are not modelled). */
  type Number = real

  /** A date, kept opaque: the service only copies dates, never computes with them. */
  type Date = int

  datatype Option<+T> = None | Some(value: T) {
    function GetOr(default: T): T {
      match this
      case Some(v) => v
      case None => default
    }
  }

  datatype CircleStatus = Pending | Active | Completed
  datatype MemberStatus = Pending | Confirmed
  datatype PaymentStatus = Pending | Paid

  /** The exceptions the service raises, as error kinds. */
  datatype Error =
    | BadRequest   // BadRequestException
    | Conflict     // ConflictException
    | StoreError   // the store rejects an update whose `where` names no row

  datatype Result<+T> = Ok(value: T) | Err(error: Error)

  datatype Circle = Circle(
    name: string,
    ownerId: Id,
    amount: Number,
    duration: Number,
    startDate: Date,
    endDate: Option<Date>,
    status: CircleStatus)

  datatype Member = Member(
    circleId: Id,
    userId: Id,
    slotNumber: Option<Number>,
    status: MemberStatus,
    paymentStatus: PaymentStatus,
    payoutDate: Option<Date>,
    adminFees: Option<Number>)

  /**
   * `handle` is the unique contact key users are looked up by; a user who
   * signed up without one has none.
   */
  datatype User = User(handle: Option<string>, status: string)

  /** JavaScript truthiness of an optional string: present and non-empty. */
  predicate TruthyString(s: Option<string>) {
    s.Some? && s.value != ""
  }

  /** JavaScript truthiness of an optional number: present and non-zero. */
  predicate TruthyNumber(n: Option<Number>) {
    n.Some? && n.value != 0.0
  }
}
