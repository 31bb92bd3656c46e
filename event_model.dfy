/**
 * The event document (Event.js): an event with its registration rules and
 * the roster of attendees, each with an attendance and a payment status.
 */
module EventModel {
  import opened Common

  datatype EventType = Reunion | Seminar | Workshop | Conference | Networking | Social | Other

  /** The enum of an event's `status`; the schema default is Draft. */
  datatype EventStatus = Draft | Published | Cancelled | Completed

  /** The enum of an event's `visibility`; the schema default is AlumniOnly. */
  datatype Visibility = Public | AlumniOnly | SchoolAlumniOnly | InviteOnly

  /** The enum of an attendee's `status`; the schema default is Registered. */
  datatype AttendeeStatus = Registered | Confirmed | Attended | Cancelled

  /** The enum of an attendee's `paymentStatus`; the schema default is NotApplicable. */
  datatype PaymentStatus = NotApplicable | Pending | Completed | Failed

  datatype Fee = Fee(amount: int, currency: string)

  datatype Location = Location(venue: string, address: string, city: string, state: string,
                               country: string, isVirtual: bool)

  datatype Attendee = Attendee(
    userId: Id,
    registeredAt: Time,
    status: AttendeeStatus,
    paymentStatus: PaymentStatus,
    paymentReference: Option<string>)

  datatype Event = Event(
    title: string,
    description: string,
    eventType: EventType,
    startDate: Time,
    endDate: Time,
    location: Location,
    organizer: Id,
    schoolId: Option<Id>,
    isSchoolSpecific: bool,
    banner: Option<string>,
    capacity: Option<int>,
    registrationRequired: bool,
    registrationDeadline: Option<Time>,
    registrationFee: Fee,
    attendees: seq<Attendee>,
    status: EventStatus,
    visibility: Visibility,
    createdBy: Id,
    updatedBy: Id,
    createdAt: Time,
    updatedAt: Time)

  /** The fee an event gets when none is given: nothing to pay, in naira. */
  const DefaultFee: Fee := Fee(0, "NGN")

  /**
   * The payment status a new roster entry gets: pending exactly when the event
   * charges a positive fee.
   */
  function InitialPayment(e: Event): (s: PaymentStatus)
    ensures s == PaymentStatus.Pending <==> e.registrationFee.amount > 0
    ensures s == PaymentStatus.Pending || s == NotApplicable
  {
    if e.registrationFee.amount > 0 then PaymentStatus.Pending else NotApplicable
  }

  /** A roster entry as registration and invitation add it. */
  function NewAttendee(userId: Id, now: Time, payment: PaymentStatus): (a: Attendee)
    ensures a.userId == userId && a.status == AttendeeStatus.Registered && a.paymentStatus == payment
    ensures a.registeredAt == now && a.paymentReference == None
  {
    Attendee(userId, now, AttendeeStatus.Registered, payment, None)
  }

  /** The ids of the users on the roster, in roster order. */
  function RosterIds(attendees: seq<Attendee>): (ids: seq<Id>)
    ensures |ids| == |attendees|
    ensures forall i :: 0 <= i < |ids| ==> ids[i] == attendees[i].userId
  {
    if |attendees| == 0 then [] else [attendees[0].userId] + RosterIds(attendees[1..])
  }

  /** One roster entry per user: registerForEvent refuses a second registration. */
  predicate UniqueRoster(attendees: seq<Attendee>) {
    forall i, j :: 0 <= i < j < |attendees| ==> attendees[i].userId != attendees[j].userId
  }

  /** Whether `u` has an entry on the roster, whatever its status. */
  predicate OnRoster(attendees: seq<Attendee>, u: Id) {
    exists i :: 0 <= i < |attendees| && attendees[i].userId == u
  }

  /**
   * An event as the schema completes it for the fields a request leaves out:
   * no capacity limit, registration required, no deadline, no fee, draft,
   * visible to alumni, an empty roster.
   */
  function NewEvent(title: string, description: string, eventType: EventType, startDate: Time,
                    endDate: Time, location: Location, organizer: Id, schoolId: Option<Id>,
                    isSchoolSpecific: bool, capacity: Option<int>, registrationRequired: Option<bool>,
                    registrationDeadline: Option<Time>, registrationFee: Option<Fee>,
                    status: Option<EventStatus>, visibility: Option<Visibility>, now: Time): (e: Event)
    ensures e.organizer == organizer == e.createdBy == e.updatedBy
    ensures e.schoolId == schoolId && e.isSchoolSpecific == isSchoolSpecific && e.capacity == capacity
    ensures e.attendees == []
    ensures e.registrationRequired == (registrationRequired.None? || registrationRequired.value)
    ensures e.registrationFee == (if registrationFee.Some? then registrationFee.value else DefaultFee)
    ensures e.status == (if status.Some? then status.value else EventStatus.Draft)
    ensures e.visibility == (if visibility.Some? then visibility.value else AlumniOnly)
    ensures e.registrationDeadline == registrationDeadline
  {
    Event(title, description, eventType, startDate, endDate, location, organizer, schoolId,
          isSchoolSpecific, None, capacity,
          if registrationRequired.Some? then registrationRequired.value else true,
          registrationDeadline,
          if registrationFee.Some? then registrationFee.value else DefaultFee,
          [],
          if status.Some? then status.value else EventStatus.Draft,
          if visibility.Some? then visibility.value else AlumniOnly,
          organizer, organizer, now, now)
  }
}
