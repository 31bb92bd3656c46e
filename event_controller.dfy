/**
 * The event handlers (eventController.js): who sees which events in the
 * listing and on the detail page, creating and editing events, and the
 * roster: registration behind its ordered guards, cancellation, the
 * organisers' attendee updates, and invitations.
 */
module EventController {
  import opened Common
  import opened EventModel
  import opened SchoolModel
  import opened Database

  // ---------------------------------------------------------------------------
  // Listing

  /** The query parameters of getAllEvents that filter (pagination is not modelled). */
  datatype EventQuery = EventQuery(
    eventType: Option<EventType>,
    school: Option<Id>,
    status: Option<EventStatus>,
    upcoming: Option<string>)

  /** The visibility part of the listing query, by the requester's role (`req.user` may be absent). */
  predicate VisibleInListing(e: Event, user: Option<Actor>) {
    if user.None? || user.value.role == Guest then e.visibility == Public
    else if user.value.role == Alumni || user.value.role == User then
      && (e.visibility == Public || e.visibility == AlumniOnly)
      && (user.value.schoolId.Some? ==>
            (e.visibility == Public || e.visibility == AlumniOnly)
            || (e.visibility == SchoolAlumniOnly && e.schoolId == user.value.schoolId))
    else true
  }

  /**
   * The whole query: the optional type and school, the status (published
   * unless given), start not before `now` unless `upcoming` is given and
   * not "true", and the visibility part.
   */
  predicate Listed(e: Event, q: EventQuery, user: Option<Actor>, now: Time) {
    && (q.eventType.Some? ==> e.eventType == q.eventType.value)
    && (q.school.Some? ==> e.schoolId == q.school)
    && e.status == (if q.status.Some? then q.status.value else EventStatus.Published)
    && (q.upcoming.None? || q.upcoming.value == "true" ==> e.startDate >= now)
    && VisibleInListing(e, user)
  }

  /** getAllEvents: the events the query matches, listed by `startDate` ascending (EventsByStart). */
  function ListEvents(E: map<Id, Event>, q: EventQuery, user: Option<Actor>, now: Time): (r: set<Id>)
    ensures forall id :: id in r <==> id in E && Listed(E[id], q, user, now)
  {
    set id | id in E && Listed(E[id], q, user, now)
  }

  /** A listing `s` of events of `E` in `{ startDate: 1 }` order. */
  predicate EventsByStart(E: map<Id, Event>, s: seq<Id>)
    requires forall i :: 0 <= i < |s| ==> s[i] in E
  {
    forall i, j :: 0 <= i < j < |s| ==> E[s[i]].startDate <= E[s[j]].startDate
  }

  /** Without a status parameter only published events are listed. */
  lemma ListingDefaultsToPublished(e: Event, q: EventQuery, user: Option<Actor>, now: Time)
    requires q.status.None? && Listed(e, q, user, now)
    ensures e.status == EventStatus.Published
  {
  }

  /** Guests and anonymous visitors are listed public events only. */
  lemma GuestsSeePublicOnly(e: Event, user: Option<Actor>)
    requires user.None? || user.value.role == Guest
    ensures VisibleInListing(e, user) <==> e.visibility == Public
  {
  }

  /**
   * The school clause of the alumni filter sits beside, not instead of, the
   * public-or-alumni clause, so an alumnus or user is never listed a
   * school-alumni event, not even of their own school; nor an invite-only one.
   */
  lemma SchoolAlumniOnlyNeverListed(e: Event, u: Actor)
    requires u.role == Alumni || u.role == User
    ensures VisibleInListing(e, Some(u)) <==> e.visibility == Public || e.visibility == AlumniOnly
  {
  }

  /** Every other role (the admin roles) is listed events of every visibility. */
  lemma AdminsSeeAll(e: Event, u: Actor)
    requires IsAdminRole(u.role)
    ensures VisibleInListing(e, Some(u))
  {
  }

  // ---------------------------------------------------------------------------
  // Viewing

  /**
   * getEventById's visibility checks, in order. A school-alumni event is
   * open to its school's members and to the admin roles; the event's
   * `schoolId` is read through null when it has none and the requester has
   * a school. An invite-only event is open to those on the roster, the
   * organiser and the platform admins.
   */
  function ViewGate(e: Event, user: Option<Actor>): (g: Outcome)
    ensures e.visibility == Public ==> g == Pass
    ensures e.visibility != Public && user.None? ==> g == Fail(Forbidden)
    ensures g == Pass || g == Fail(Forbidden) || g == Fail(ServerError)
    ensures user.Some? && e.visibility == AlumniOnly ==> (g == Pass <==> user.value.role != Guest)
    ensures user.Some? && e.visibility == SchoolAlumniOnly && e.schoolId.Some? ==>
      (g == Pass <==> user.value.schoolId == e.schoolId || IsAdminRole(user.value.role))
    ensures user.Some? && e.visibility == SchoolAlumniOnly && user.value.schoolId.None? ==>
      (g == Pass <==> IsAdminRole(user.value.role))
    ensures user.Some? && e.visibility == InviteOnly ==>
      (g == Pass <==> OnRoster(e.attendees, user.value.id) || e.organizer == user.value.id
                      || IsPlatformAdmin(user.value.role))
  {
    if e.visibility == Public then Pass
    else if user.None? then Fail(Forbidden)
    else
      var u := user.value;
      if e.visibility == AlumniOnly && u.role == Guest then Fail(Forbidden)
      else if e.visibility == SchoolAlumniOnly && u.schoolId.Some? && e.schoolId.None? then Fail(ServerError)
      else if e.visibility == SchoolAlumniOnly && (u.schoolId.None? || u.schoolId != e.schoolId) && !IsAdminRole(u.role) then Fail(Forbidden)
      else if e.visibility == InviteOnly && !OnRoster(e.attendees, u.id) && e.organizer != u.id
              && !IsPlatformAdmin(u.role) then Fail(Forbidden)
      else Pass
  }

  /** getEventById: 404 for an unknown event, then the visibility checks. */
  function EventById(E: map<Id, Event>, id: Id, user: Option<Actor>): (r: Result<Event>)
    ensures id !in E ==> r == Failure(NotFound)
    ensures id in E ==> (r.Success? <==> ViewGate(E[id], user) == Pass)
    ensures r.Success? ==> r.value == E[id]
  {
    if id !in E then Failure(NotFound)
    else
      var g := ViewGate(E[id], user);
      if g == Pass then Success(E[id]) else Failure(g.error)
  }

  /** An event other than an invite-only one that shows up in a user's listing can also be opened by that user. */
  lemma ListedImpliesViewable(e: Event, q: EventQuery, user: Option<Actor>, now: Time)
    requires Listed(e, q, user, now) && e.visibility != InviteOnly
    requires e.visibility == SchoolAlumniOnly ==> e.schoolId.Some?
    ensures ViewGate(e, user) == Pass
  {
  }

  /**
   * The case ListedImpliesViewable leaves out: a school-alumni event without
   * a school is listed only to the admin roles, and one with a school of
   * their own who opens it reads the missing school and gets 500.
   */
  lemma ListedSchoolEventWithoutSchoolCrashes(e: Event, q: EventQuery, u: Actor, now: Time)
    requires Listed(e, q, Some(u), now)
    requires e.visibility == SchoolAlumniOnly && e.schoolId.None? && u.schoolId.Some?
    ensures IsAdminRole(u.role)
    ensures ViewGate(e, Some(u)) == Fail(ServerError)
  {
  }

  /** A school admin is listed every invite-only event, but may open only those they organise or attend. */
  lemma InviteOnlyListedNotViewable(e: Event, q: EventQuery, u: Actor, now: Time)
    requires u.role == SchoolAdmin && e.visibility == InviteOnly
    ensures Listed(e, q, Some(u), now) <==>
      && (q.eventType.Some? ==> e.eventType == q.eventType.value)
      && (q.school.Some? ==> e.schoolId == q.school)
      && e.status == (if q.status.Some? then q.status.value else EventStatus.Published)
      && (q.upcoming.None? || q.upcoming.value == "true" ==> e.startDate >= now)
    ensures ViewGate(e, Some(u)) == Pass <==> OnRoster(e.attendees, u.id) || e.organizer == u.id
  {
  }

  // ---------------------------------------------------------------------------
  // Who may edit

  /**
   * The edit rule of updateEvent, deleteEvent and inviteToEvent (and, with
   * `creatorMay` false, of updateAttendeeStatus): organiser, creator, an
   * admin of the event's school, or a platform admin. The school is fetched
   * for every school admin before the decision and read through null when
   * it is missing.
   */
  function EditGate(S: map<Id, School>, e: Event, actor: Actor, creatorMay: bool): (g: Outcome)
    ensures actor.role == SchoolAdmin && e.schoolId.Some? && e.schoolId.value !in S ==> g == Fail(ServerError)
    ensures !(actor.role == SchoolAdmin && e.schoolId.Some? && e.schoolId.value !in S) ==>
      (g == Pass <==>
         || e.organizer == actor.id
         || (creatorMay && e.createdBy == actor.id)
         || (actor.role == SchoolAdmin && e.schoolId.Some? && actor.id in S[e.schoolId.value].adminUsers)
         || IsPlatformAdmin(actor.role))
    ensures g == Pass || g == Fail(Forbidden) || g == Fail(ServerError)
  {
    if actor.role == SchoolAdmin && e.schoolId.Some? && e.schoolId.value !in S then Fail(ServerError)
    else if e.organizer == actor.id || (creatorMay && e.createdBy == actor.id)
            || (actor.role == SchoolAdmin && e.schoolId.Some? && actor.id in S[e.schoolId.value].adminUsers)
            || IsPlatformAdmin(actor.role) then Pass
    else Fail(Forbidden)
  }

  /** updateAttendeeStatus leaves the creator out: creating an event is not enough to manage its roster. */
  lemma AttendeeGateStricter(S: map<Id, School>, e: Event, actor: Actor)
    ensures EditGate(S, e, actor, false) == Pass ==> EditGate(S, e, actor, true) == Pass
    ensures e.createdBy == actor.id && e.organizer != actor.id && actor.role == Alumni ==>
      EditGate(S, e, actor, true) == Pass && EditGate(S, e, actor, false) == Fail(Forbidden)
  {
  }

  // ---------------------------------------------------------------------------
  // Creating

  /** The roles createEvent lets through: alumni and the admin roles, not plain users or guests. */
  predicate MayCreateEvents(r: Role) {
    r == Alumni || IsAdminRole(r)
  }

  /** createEvent's guards: the role, then for a school event an existing school that lists a school admin. */
  function CreateEventGate(S: map<Id, School>, actor: Actor, schoolId: Option<Id>): (g: Outcome)
    ensures g == Pass <==>
      && MayCreateEvents(actor.role)
      && (schoolId.Some? ==> schoolId.value in S && (actor.role == SchoolAdmin ==> actor.id in S[schoolId.value].adminUsers))
    ensures !MayCreateEvents(actor.role) ==> g == Fail(Forbidden)
    ensures MayCreateEvents(actor.role) && schoolId.Some? && schoolId.value !in S ==> g == Fail(NotFound)
    ensures g == Pass || g == Fail(Forbidden) || g == Fail(NotFound)
  {
    if !MayCreateEvents(actor.role) then Fail(Forbidden)
    else if schoolId.Some? && schoolId.value !in S then Fail(NotFound)
    else if schoolId.Some? && actor.role == SchoolAdmin && actor.id !in S[schoolId.value].adminUsers then Fail(Forbidden)
    else Pass
  }

  /** The fields of a createEvent request body that the event keeps; a field may be missing. */
  datatype EventRequest = EventRequest(
    title: string,
    description: string,
    eventType: EventType,
    startDate: Time,
    endDate: Time,
    location: Location,
    schoolId: Option<Id>,
    capacity: Option<int>,
    registrationRequired: Option<bool>,
    registrationDeadline: Option<Time>,
    registrationFee: Option<Fee>,
    status: Option<EventStatus>,
    visibility: Option<Visibility>)

  /** The event createEvent stores: `capacity || null` turns a capacity of 0 into none. */
  function EventFromRequest(q: EventRequest, actor: Actor, now: Time): (e: Event)
    ensures e.organizer == actor.id && e.createdBy == actor.id && e.updatedBy == actor.id
    ensures e.isSchoolSpecific <==> q.schoolId.Some?
    ensures e.capacity == (if q.capacity == Some(0) then None else q.capacity)
    ensures e.attendees == []
    ensures q.status.None? ==> e.status == EventStatus.Draft
    ensures q.visibility.None? ==> e.visibility == AlumniOnly
    ensures q.registrationRequired.None? ==> e.registrationRequired
    ensures q.registrationFee.None? ==> e.registrationFee == DefaultFee
  {
    NewEvent(q.title, q.description, q.eventType, q.startDate, q.endDate, q.location, actor.id,
             q.schoolId, q.schoolId.Some?, if q.capacity == Some(0) then None else q.capacity,
             q.registrationRequired, q.registrationDeadline, q.registrationFee, q.status, q.visibility, now)
  }

  /** createEvent: the guards, then a new event organised and created by the requester. */
  method CreateEvent(db: Db, actor: Actor, q: EventRequest, newId: Id, now: Time) returns (r: Result<Id>)
    requires newId !in db.events
    modifies db`events
    ensures var g := CreateEventGate(db.schools, actor, q.schoolId);
      && (g != Pass ==> r == Failure(g.error) && unchanged(db))
      && (g == Pass ==> r == Success(newId) && db.events == old(db.events)[newId := EventFromRequest(q, actor, now)])
  {
    var g := CreateEventGate(db.schools, actor, q.schoolId);
    if g != Pass {
      return Failure(g.error);
    }
    db.events := db.events[newId := EventFromRequest(q, actor, now)];
    return Success(newId);
  }

  // ---------------------------------------------------------------------------
  // Editing: the `Object.keys(updateData)` copy

  /** One key of an updateEvent request body with its value. */
  datatype EventField =
    | SetTitle(title: string)
    | SetDescription(description: string)
    | SetEventType(eventType: EventType)
    | SetStartDate(startDate: Time)
    | SetEndDate(endDate: Time)
    | SetLocation(location: Location)
    | SetOrganizer(organizer: Id)
    | SetSchoolId(schoolId: Option<Id>)
    | SetSchoolSpecific(isSchoolSpecific: bool)
    | SetBanner(banner: Option<string>)
    | SetCapacity(capacity: Option<int>)
    | SetRegistrationRequired(registrationRequired: bool)
    | SetRegistrationDeadline(registrationDeadline: Option<Time>)
    | SetRegistrationFee(registrationFee: Fee)
    | SetStatus(status: EventStatus)
    | SetVisibility(visibility: Visibility)
    | SetUpdatedBy(updatedBy: Id)
    | SetUpdatedAt(updatedAt: Time)
    | SetDocId(docId: Id)
    | SetCreatedAt(createdAt: Time)
    | SetCreatedBy(createdBy: Id)
    | SetAttendees(attendees: seq<Attendee>)

  /** The keys the copy skips: `_id`, `createdAt`, `createdBy` and `attendees`. */
  predicate Protected(f: EventField) {
    f.SetDocId? || f.SetCreatedAt? || f.SetCreatedBy? || f.SetAttendees?
  }

  /** A key not protected lands in the event as given. */
  function ApplyField(e: Event, f: EventField): (r: Event)
    ensures Protected(f) ==> r == e
    ensures r.createdAt == e.createdAt && r.createdBy == e.createdBy && r.attendees == e.attendees
    ensures !f.SetTitle? ==> r.title == e.title
    ensures !f.SetStatus? ==> r.status == e.status
    ensures !f.SetVisibility? ==> r.visibility == e.visibility
    ensures !f.SetSchoolId? ==> r.schoolId == e.schoolId
    ensures !f.SetSchoolSpecific? ==> r.isSchoolSpecific == e.isSchoolSpecific
  {
    match f
    case SetTitle(v) => e.(title := v)
    case SetDescription(v) => e.(description := v)
    case SetEventType(v) => e.(eventType := v)
    case SetStartDate(v) => e.(startDate := v)
    case SetEndDate(v) => e.(endDate := v)
    case SetLocation(v) => e.(location := v)
    case SetOrganizer(v) => e.(organizer := v)
    case SetSchoolId(v) => e.(schoolId := v)
    case SetSchoolSpecific(v) => e.(isSchoolSpecific := v)
    case SetBanner(v) => e.(banner := v)
    case SetCapacity(v) => e.(capacity := v)
    case SetRegistrationRequired(v) => e.(registrationRequired := v)
    case SetRegistrationDeadline(v) => e.(registrationDeadline := v)
    case SetRegistrationFee(v) => e.(registrationFee := v)
    case SetStatus(v) => e.(status := v)
    case SetVisibility(v) => e.(visibility := v)
    case SetUpdatedBy(v) => e.(updatedBy := v)
    case SetUpdatedAt(v) => e.(updatedAt := v)
    case SetDocId(_) => e
    case SetCreatedAt(_) => e
    case SetCreatedBy(_) => e
    case SetAttendees(_) => e
  }

  /** The copy of every key in order, the later of two equal keys winning. */
  function ApplyFields(e: Event, fs: seq<EventField>): Event
  {
    if |fs| == 0 then e else ApplyField(ApplyFields(e, fs[..|fs| - 1]), fs[|fs| - 1])
  }

  /** Whatever the body holds, the copy never touches the creation fields or the roster. */
  lemma {:induction false} ApplyFieldsKeepsProtected(e: Event, fs: seq<EventField>)
    ensures ApplyFields(e, fs).createdAt == e.createdAt
    ensures ApplyFields(e, fs).createdBy == e.createdBy
    ensures ApplyFields(e, fs).attendees == e.attendees
  {
    if |fs| > 0 {
      ApplyFieldsKeepsProtected(e, fs[..|fs| - 1]);
    }
  }

  /** The body names no title, status or visibility: those stay as stored. */
  lemma {:induction false} ApplyFieldsKeepsUnnamed(e: Event, fs: seq<EventField>)
    ensures (forall i :: 0 <= i < |fs| ==> !fs[i].SetTitle?) ==> ApplyFields(e, fs).title == e.title
    ensures (forall i :: 0 <= i < |fs| ==> !fs[i].SetStatus?) ==> ApplyFields(e, fs).status == e.status
    ensures (forall i :: 0 <= i < |fs| ==> !fs[i].SetVisibility?) ==> ApplyFields(e, fs).visibility == e.visibility
  {
    if |fs| > 0 {
      ApplyFieldsKeepsUnnamed(e, fs[..|fs| - 1]);
    }
  }

  /** The last schoolId key of the body, if any (`updateData.schoolId`). */
  function SchoolIdKey(fs: seq<EventField>): (r: Option<Option<Id>>)
    ensures r.None? <==> forall i :: 0 <= i < |fs| ==> !fs[i].SetSchoolId?
  {
    if |fs| == 0 then None
    else if fs[|fs| - 1].SetSchoolId? then Some(fs[|fs| - 1].schoolId)
    else SchoolIdKey(fs[..|fs| - 1])
  }

  /** The last isSchoolSpecific key of the body, if any. */
  function SchoolSpecificKey(fs: seq<EventField>): (r: Option<bool>)
    ensures r.None? <==> forall i :: 0 <= i < |fs| ==> !fs[i].SetSchoolSpecific?
  {
    if |fs| == 0 then None
    else if fs[|fs| - 1].SetSchoolSpecific? then Some(fs[|fs| - 1].isSchoolSpecific)
    else SchoolSpecificKey(fs[..|fs| - 1])
  }

  /** After the copy, `schoolId` and `isSchoolSpecific` hold the body's last such keys, or stay as stored. */
  lemma {:induction false} ApplyFieldsSchool(e: Event, fs: seq<EventField>)
    ensures ApplyFields(e, fs).schoolId == (if SchoolIdKey(fs).Some? then SchoolIdKey(fs).value else e.schoolId)
    ensures ApplyFields(e, fs).isSchoolSpecific ==
      (if SchoolSpecificKey(fs).Some? then SchoolSpecificKey(fs).value else e.isSchoolSpecific)
  {
    if |fs| > 0 {
      ApplyFieldsSchool(e, fs[..|fs| - 1]);
    }
  }

  /**
   * `updateData.isSchoolSpecific = b`: an existing key keeps its place and
   * takes the new value, a new one goes last; no other key changes.
   */
  function PutSchoolSpecific(fs: seq<EventField>, b: bool): (r: seq<EventField>)
    ensures |r| >= |fs|
    ensures exists i :: 0 <= i < |r| && r[i] == SetSchoolSpecific(b)
    ensures forall i :: 0 <= i < |r| && r[i].SetSchoolSpecific? ==> r[i] == SetSchoolSpecific(b)
    ensures forall i :: 0 <= i < |fs| && !fs[i].SetSchoolSpecific? ==> r[i] == fs[i]
    ensures forall i :: |fs| <= i < |r| ==> r[i] == SetSchoolSpecific(b)
  {
    if exists i :: 0 <= i < |fs| && fs[i].SetSchoolSpecific? then
      var r := seq(|fs|, i requires 0 <= i < |fs| => if fs[i].SetSchoolSpecific? then SetSchoolSpecific(b) else fs[i]);
      var k :| 0 <= k < |fs| && fs[k].SetSchoolSpecific?;
      assert r[k] == SetSchoolSpecific(b);
      r
    else
      var r := fs + [SetSchoolSpecific(b)];
      assert r[|fs|] == SetSchoolSpecific(b);
      r
  }

  /** A body whose every isSchoolSpecific key says `b`, and which has one, ends with `b`. */
  lemma {:induction false} SchoolSpecificKeyUniform(r: seq<EventField>, b: bool)
    requires exists i :: 0 <= i < |r| && r[i] == SetSchoolSpecific(b)
    requires forall i :: 0 <= i < |r| && r[i].SetSchoolSpecific? ==> r[i] == SetSchoolSpecific(b)
    ensures SchoolSpecificKey(r) == Some(b)
  {
    var n := |r| - 1;
    if !r[n].SetSchoolSpecific? {
      var init := r[..n];
      var k :| 0 <= k < |r| && r[k] == SetSchoolSpecific(b);
      assert init[k] == r[k];
      SchoolSpecificKeyUniform(init, b);
    }
  }

  /** Two bodies of one length that agree on every schoolId key have the same last schoolId key. */
  lemma {:induction false} SchoolIdKeyFrame(fs: seq<EventField>, gs: seq<EventField>)
    requires |fs| == |gs|
    requires forall i :: 0 <= i < |fs| && (fs[i].SetSchoolId? || gs[i].SetSchoolId?) ==> fs[i] == gs[i]
    ensures SchoolIdKey(gs) == SchoolIdKey(fs)
  {
    if |fs| > 0 {
      var n := |fs| - 1;
      assert forall i :: 0 <= i < n ==> fs[..n][i] == fs[i] && gs[..n][i] == gs[i];
      SchoolIdKeyFrame(fs[..n], gs[..n]);
    }
  }

  /** Setting isSchoolSpecific leaves the body's schoolId and makes `b` its last isSchoolSpecific key. */
  lemma PutSchoolSpecificKeys(fs: seq<EventField>, b: bool)
    ensures SchoolSpecificKey(PutSchoolSpecific(fs, b)) == Some(b)
    ensures SchoolIdKey(PutSchoolSpecific(fs, b)) == SchoolIdKey(fs)
  {
    var r := PutSchoolSpecific(fs, b);
    SchoolSpecificKeyUniform(r, b);
    if |r| == |fs| {
      SchoolIdKeyFrame(fs, r);
    } else {
      assert r == fs + [SetSchoolSpecific(b)];
      assert r[..|fs|] == fs;
    }
  }

  /**
   * updateEvent's school check: a truthy schoolId other than the stored one
   * must name an existing school, which must list a school admin.
   */
  function NewSchoolGate(S: map<Id, School>, e: Event, actor: Actor, fs: seq<EventField>): (g: Outcome)
    ensures g == Pass || g == Fail(NotFound) || g == Fail(Forbidden)
    ensures (SchoolIdKey(fs).None? || SchoolIdKey(fs).value.None? || SchoolIdKey(fs).value == e.schoolId) ==> g == Pass
  {
    match SchoolIdKey(fs)
    case Some(Some(s)) =>
      if Some(s) == e.schoolId then Pass
      else if s !in S then Fail(NotFound)
      else if actor.role == SchoolAdmin && actor.id !in S[s].adminUsers then Fail(Forbidden)
      else Pass
    case _ => Pass
  }

  /** The body after the school step: a new school marks the event school-specific, a null one clears it. */
  function PrepareFields(e: Event, fs: seq<EventField>): seq<EventField>
  {
    match SchoolIdKey(fs)
    case Some(Some(s)) => if Some(s) == e.schoolId then fs else PutSchoolSpecific(fs, true)
    case Some(None) => PutSchoolSpecific(fs, false)
    case None => fs
  }

  /**
   * What the school step does to the stored event: a new school makes it
   * school-specific with that school, a null one clears both, and a body
   * without a schoolId or with the current one is copied as given.
   */
  lemma PrepareFieldsSchoolStep(e: Event, fs: seq<EventField>)
    ensures var e' := ApplyFields(e, PrepareFields(e, fs));
      && (SchoolIdKey(fs).Some? && SchoolIdKey(fs).value.Some? && SchoolIdKey(fs).value != e.schoolId ==>
            e'.isSchoolSpecific && e'.schoolId == SchoolIdKey(fs).value)
      && (SchoolIdKey(fs) == Some(None) ==> e'.schoolId == None && !e'.isSchoolSpecific)
    ensures SchoolIdKey(fs).None? || (SchoolIdKey(fs).value.Some? && SchoolIdKey(fs).value == e.schoolId) ==>
      PrepareFields(e, fs) == fs
  {
    match SchoolIdKey(fs)
    case Some(Some(s)) =>
      if Some(s) != e.schoolId {
        PutSchoolSpecificKeys(fs, true);
        ApplyFieldsSchool(e, PrepareFields(e, fs));
      }
    case Some(None) =>
      PutSchoolSpecificKeys(fs, false);
      ApplyFieldsSchool(e, PrepareFields(e, fs));
    case None =>
  }

  /**
   * updateEvent: 404, the edit rule, the school check, then the key-by-key
   * copy and the `updatedAt`/`updatedBy` stamp.
   */
  method UpdateEvent(db: Db, actor: Actor, id: Id, fields: seq<EventField>, now: Time) returns (o: Outcome)
    modifies db`events
    ensures id !in old(db.events) ==> o == Fail(NotFound) && unchanged(db)
    ensures id in old(db.events) ==>
      var e := old(db.events[id]);
      var g := EditGate(db.schools, e, actor, true);
      var h := NewSchoolGate(db.schools, e, actor, fields);
      && (g != Pass ==> o == g && unchanged(db))
      && (g == Pass && h != Pass ==> o == h && unchanged(db))
      && (g == Pass && h == Pass ==>
            && o == Pass
            && db.events == old(db.events)[id := ApplyFields(e, PrepareFields(e, fields)).(updatedAt := now, updatedBy := actor.id)])
    ensures o == Pass ==>
      && id in db.events
      && db.events[id].createdAt == old(db.events[id]).createdAt
      && db.events[id].createdBy == old(db.events[id]).createdBy
      && db.events[id].attendees == old(db.events[id]).attendees
    ensures o == Pass && SchoolIdKey(fields).Some? && SchoolIdKey(fields).value.Some? &&
            SchoolIdKey(fields).value != old(db.events[id]).schoolId ==>
      db.events[id].isSchoolSpecific && db.events[id].schoolId == SchoolIdKey(fields).value
    ensures o == Pass && SchoolIdKey(fields) == Some(None) ==>
      db.events[id].schoolId == None && !db.events[id].isSchoolSpecific
  {
    if id !in db.events {
      return Fail(NotFound);
    }
    var e := db.events[id];
    o := EditGate(db.schools, e, actor, true);
    if o != Pass {
      return;
    }
    o := NewSchoolGate(db.schools, e, actor, fields);
    if o != Pass {
      return;
    }
    var fs := PrepareFields(e, fields);
    var cur := e;
    var i := 0;
    while i < |fs|
      invariant 0 <= i <= |fs|
      invariant cur == ApplyFields(e, fs[..i])
    {
      assert fs[..i + 1][..i] == fs[..i];
      cur := ApplyField(cur, fs[i]);
      i := i + 1;
    }
    assert fs[..|fs|] == fs;
    ApplyFieldsKeepsProtected(e, fs);
    PrepareFieldsSchoolStep(e, fields);
    db.events := db.events[id := cur.(updatedAt := now, updatedBy := actor.id)];
  }

  /** deleteEvent: 404, the edit rule, then the document is removed for good. */
  method DeleteEvent(db: Db, actor: Actor, id: Id) returns (o: Outcome)
    modifies db`events
    ensures id !in old(db.events) ==> o == Fail(NotFound) && unchanged(db)
    ensures id in old(db.events) ==>
      var g := EditGate(db.schools, old(db.events[id]), actor, true);
      && (g != Pass ==> o == g && unchanged(db))
      && (g == Pass ==> o == Pass && db.events == old(db.events) - {id})
  {
    if id !in db.events {
      return Fail(NotFound);
    }
    o := EditGate(db.schools, db.events[id], actor, true);
    if o != Pass {
      return;
    }
    db.events := db.events - {id};
  }

  // ---------------------------------------------------------------------------
  // Registration

  /** `event.capacity && event.attendees.length >= event.capacity`: no capacity or 0 never fills. */
  predicate Full(e: Event) {
    e.capacity.Some? && e.capacity.value != 0 && |e.attendees| >= e.capacity.value
  }

  /**
   * registerForEvent's checks in order: published, registration required,
   * deadline not passed, room left, not on the roster (each 400), then
   * visibility (403). The event's `schoolId` is read through null for a
   * requester with a school.
   */
  function RegisterGate(e: Event, actor: Actor, now: Time): (g: Outcome)
    ensures e.status != EventStatus.Published ==> g == Fail(BadRequest)
    ensures e.visibility == InviteOnly ==> g != Pass
    ensures g == Fail(BadRequest) <==>
      !(&& e.status == EventStatus.Published
        && e.registrationRequired
        && (e.registrationDeadline.Some? ==> e.registrationDeadline.value >= now)
        && !Full(e)
        && !OnRoster(e.attendees, actor.id))
    ensures g == Pass || g == Fail(BadRequest) || g == Fail(Forbidden) || g == Fail(ServerError)
    ensures g == Pass <==>
      && e.status == EventStatus.Published
      && e.registrationRequired
      && (e.registrationDeadline.Some? ==> e.registrationDeadline.value >= now)
      && !Full(e)
      && !OnRoster(e.attendees, actor.id)
      && (e.visibility == AlumniOnly ==> actor.role != Guest)
      && (e.visibility == SchoolAlumniOnly ==> actor.schoolId.Some? && actor.schoolId == e.schoolId)
      && e.visibility != InviteOnly
  {
    if e.status != EventStatus.Published then Fail(BadRequest)
    else if !e.registrationRequired then Fail(BadRequest)
    else if e.registrationDeadline.Some? && e.registrationDeadline.value < now then Fail(BadRequest)
    else if Full(e) then Fail(BadRequest)
    else if OnRoster(e.attendees, actor.id) then Fail(BadRequest)
    else if e.visibility == AlumniOnly && actor.role == Guest then Fail(Forbidden)
    else if e.visibility == SchoolAlumniOnly && actor.schoolId.None? then Fail(Forbidden)
    else if e.visibility == SchoolAlumniOnly && e.schoolId.None? then Fail(ServerError)
    else if e.visibility == SchoolAlumniOnly && actor.schoolId != e.schoolId then Fail(Forbidden)
    else if e.visibility == InviteOnly then Fail(Forbidden)
    else Pass
  }

  /**
   * An instance of RegisterGate's 400 clause: the roster checks come before
   * the visibility checks, so a full invite-only event answers 400, not 403.
   */
  lemma FullBeforeVisibility(e: Event, actor: Actor, now: Time)
    requires e.status == EventStatus.Published && e.registrationRequired && e.registrationDeadline.None?
    requires Full(e) && e.visibility == InviteOnly
    ensures RegisterGate(e, actor, now) == Fail(BadRequest)
  {
  }

  /** registerForEvent: 404, the checks, then one entry at the end; the answer says whether payment is due. */
  method RegisterForEvent(db: Db, actor: Actor, id: Id, now: Time) returns (r: Result<bool>)
    modifies db`events
    ensures id !in old(db.events) ==> r == Failure(NotFound) && unchanged(db)
    ensures id in old(db.events) ==>
      var e := old(db.events[id]);
      var g := RegisterGate(e, actor, now);
      && (g != Pass ==> r == Failure(g.error) && unchanged(db))
      && (g == Pass ==>
            && r == Success(InitialPayment(e) == PaymentStatus.Pending)
            && db.events == old(db.events)[id := e.(attendees := e.attendees + [NewAttendee(actor.id, now, InitialPayment(e))])])
    ensures r.Success? ==> (r.value <==> old(db.events[id]).registrationFee.amount > 0)
    ensures r.Success? && old(UniqueRoster(db.events[id].attendees)) ==> UniqueRoster(db.events[id].attendees)
  {
    if id !in db.events {
      return Failure(NotFound);
    }
    var e := db.events[id];
    var g := RegisterGate(e, actor, now);
    if g != Pass {
      return Failure(g.error);
    }
    var payment := InitialPayment(e);
    var entry := NewAttendee(actor.id, now, payment);
    AppendKeepsUnique(e.attendees, entry);
    db.events := db.events[id := e.(attendees := e.attendees + [entry])];
    return Success(payment == PaymentStatus.Pending);
  }

  /** Appending an entry for a user not on the roster keeps one entry per user. */
  lemma AppendKeepsUnique(attendees: seq<Attendee>, a: Attendee)
    ensures UniqueRoster(attendees) && !OnRoster(attendees, a.userId) ==> UniqueRoster(attendees + [a])
  {
    if UniqueRoster(attendees) && !OnRoster(attendees, a.userId) {
      forall i, j | 0 <= i < j < |attendees + [a]|
        ensures (attendees + [a])[i].userId != (attendees + [a])[j].userId
      {
        if j == |attendees| {
          assert (attendees + [a])[i] == attendees[i];
        }
      }
    }
  }

  /** `attendees.findIndex(a => a.userId === u)`. */
  function AttendeeIndex(attendees: seq<Attendee>, u: Id): (i: int)
    ensures -1 <= i < |attendees|
    ensures i == -1 <==> !OnRoster(attendees, u)
    ensures 0 <= i ==> attendees[i].userId == u && forall k :: 0 <= k < i ==> attendees[k].userId != u
  {
    if |attendees| == 0 then -1
    else if attendees[0].userId == u then 0
    else
      var k := AttendeeIndex(attendees[1..], u);
      if k == -1 then
        assert forall j :: 1 <= j < |attendees| ==> attendees[j] == attendees[1..][j - 1];
        -1
      else k + 1
  }

  /** cancelRegistration: 400 for a user not on the roster; else their first entry is marked cancelled. */
  method CancelRegistration(db: Db, actor: Actor, id: Id) returns (o: Outcome)
    modifies db`events
    ensures id !in old(db.events) ==> o == Fail(NotFound) && unchanged(db)
    ensures id in old(db.events) && !OnRoster(old(db.events[id]).attendees, actor.id) ==>
      o == Fail(BadRequest) && unchanged(db)
    ensures id in old(db.events) && OnRoster(old(db.events[id]).attendees, actor.id) ==>
      var e := old(db.events[id]);
      var i := AttendeeIndex(e.attendees, actor.id);
      && o == Pass
      && db.events == old(db.events)[id := e.(attendees := e.attendees[i := e.attendees[i].(status := AttendeeStatus.Cancelled)])]
  {
    if id !in db.events {
      return Fail(NotFound);
    }
    var e := db.events[id];
    var i := AttendeeIndex(e.attendees, actor.id);
    if i == -1 {
      return Fail(BadRequest);
    }
    db.events := db.events[id := e.(attendees := e.attendees[i := e.attendees[i].(status := AttendeeStatus.Cancelled)])];
    return Pass;
  }

  /**
   * A cancelled entry stays on the roster: it still takes a place toward the
   * capacity, and its user cannot register again.
   */
  lemma CancelledStillCounts(e: Event, u: Id, now: Time)
    requires OnRoster(e.attendees, u)
    ensures var i := AttendeeIndex(e.attendees, u);
      var e' := e.(attendees := e.attendees[i := e.attendees[i].(status := AttendeeStatus.Cancelled)]);
      && |e'.attendees| == |e.attendees|
      && (Full(e') <==> Full(e))
      && forall actor: Actor :: actor.id == u ==> RegisterGate(e', actor, now) != Pass
  {
    var i := AttendeeIndex(e.attendees, u);
    var e' := e.(attendees := e.attendees[i := e.attendees[i].(status := AttendeeStatus.Cancelled)]);
    assert e'.attendees[i].userId == u;
  }

  /** The fields updateAttendeeStatus may set; a missing or empty value is skipped. */
  function EditAttendee(a: Attendee, status: Option<AttendeeStatus>, payment: Option<PaymentStatus>,
                        reference: Option<string>): (r: Attendee)
    ensures r.userId == a.userId && r.registeredAt == a.registeredAt
    ensures r.status == (if status.Some? then status.value else a.status)
    ensures r.paymentStatus == (if payment.Some? then payment.value else a.paymentStatus)
    ensures r.paymentReference == (if Truthy(reference) then reference else a.paymentReference)
  {
    var a1 := if status.Some? then a.(status := status.value) else a;
    var a2 := if payment.Some? then a1.(paymentStatus := payment.value) else a1;
    if Truthy(reference) then a2.(paymentReference := reference) else a2
  }

  /** updateAttendeeStatus: 404, the edit rule without the creator, 404 for a user not on the roster, then the edit. */
  method UpdateAttendeeStatus(db: Db, actor: Actor, id: Id, userId: Id, status: Option<AttendeeStatus>,
                              payment: Option<PaymentStatus>, reference: Option<string>) returns (o: Outcome)
    modifies db`events
    ensures id !in old(db.events) ==> o == Fail(NotFound) && unchanged(db)
    ensures id in old(db.events) ==>
      var e := old(db.events[id]);
      var g := EditGate(db.schools, e, actor, false);
      var i := AttendeeIndex(e.attendees, userId);
      && (g != Pass ==> o == g && unchanged(db))
      && (g == Pass && i == -1 ==> o == Fail(NotFound) && unchanged(db))
      && (g == Pass && i != -1 ==>
            o == Pass && db.events == old(db.events)[id := e.(attendees := e.attendees[i := EditAttendee(e.attendees[i], status, payment, reference)])])
  {
    if id !in db.events {
      return Fail(NotFound);
    }
    var e := db.events[id];
    o := EditGate(db.schools, e, actor, false);
    if o != Pass {
      return;
    }
    var i := AttendeeIndex(e.attendees, userId);
    if i == -1 {
      return Fail(NotFound);
    }
    db.events := db.events[id := e.(attendees := e.attendees[i := EditAttendee(e.attendees[i], status, payment, reference)])];
  }

  // ---------------------------------------------------------------------------
  // Invitations

  /** The users `User.find({ _id: { $in: ids } })` returns: each existing id once. */
  function FoundUsers(U: map<Id, UserRecord>, ids: seq<Id>): set<Id> {
    set u | u in ids && u in U
  }

  /** A list with a head is free of repeats exactly when its tail is and the head does not recur. */
  lemma NoDupCons(ids: seq<Id>)
    requires |ids| > 0
    ensures NoDup(ids) <==> NoDup(ids[1..]) && ids[0] !in ids[1..]
  {
    var t := ids[1..];
    if NoDup(t) && ids[0] !in t {
      forall i, j | 0 <= i < j < |ids| ensures ids[i] != ids[j] {
        assert ids[j] == t[j - 1];
        if i > 0 {
          assert ids[i] == t[i - 1];
        }
      }
    }
    if NoDup(ids) {
      forall i, j | 0 <= i < j < |t| ensures t[i] != t[j] {
        assert t[i] == ids[i + 1] && t[j] == ids[j + 1];
      }
    }
  }

  /** Every id of a list with a head names a user exactly when the head and every id of the tail do. */
  lemma AllFoundCons(U: map<Id, UserRecord>, ids: seq<Id>)
    requires |ids| > 0
    ensures (forall i :: 0 <= i < |ids| ==> ids[i] in U) <==> ids[0] in U && forall i :: 0 <= i < |ids[1..]| ==> ids[1..][i] in U
  {
    if ids[0] in U && forall i :: 0 <= i < |ids[1..]| ==> ids[1..][i] in U {
      forall i | 0 <= i < |ids| ensures ids[i] in U {
        if i > 0 {
          assert ids[i] == ids[1..][i - 1];
        }
      }
    }
  }

  /**
   * `users.length !== userIds.length` is false exactly when every id names a
   * user and no id is repeated.
   */
  lemma {:induction false} FoundAllIff(U: map<Id, UserRecord>, ids: seq<Id>)
    ensures |FoundUsers(U, ids)| <= |ids|
    ensures |FoundUsers(U, ids)| == |ids| <==> NoDup(ids) && forall i :: 0 <= i < |ids| ==> ids[i] in U
  {
    if |ids| > 0 {
      var h, t := ids[0], ids[1..];
      FoundAllIff(U, t);
      NoDupCons(ids);
      AllFoundCons(U, ids);
      assert forall u :: u in ids <==> u == h || u in t by {
        assert ids == [h] + t;
      }
      if h in U && h !in t {
        assert FoundUsers(U, ids) == FoundUsers(U, t) + {h};
      } else {
        assert FoundUsers(U, ids) == FoundUsers(U, t);
      }
    }
  }

  /** The invited ids that are not yet on the roster, in input order. */
  function Invitees(ids: seq<Id>, existing: seq<Id>): (r: seq<Id>)
    ensures |r| <= |ids|
  {
    if |ids| == 0 then []
    else
      var rest := Invitees(ids[..|ids| - 1], existing);
      if ids[|ids| - 1] in existing then rest else rest + [ids[|ids| - 1]]
  }

  /** The invitees are exactly the given ids not on the roster. */
  lemma {:induction false} InviteesMembers(ids: seq<Id>, existing: seq<Id>)
    ensures forall u :: u in Invitees(ids, existing) <==> u in ids && u !in existing
  {
    if |ids| > 0 {
      InviteesMembers(ids[..|ids| - 1], existing);
      assert ids == ids[..|ids| - 1] + [ids[|ids| - 1]];
    }
  }

  lemma InviteesSnoc(ids: seq<Id>, i: int, existing: seq<Id>)
    requires 0 <= i < |ids|
    ensures Invitees(ids[..i + 1], existing) ==
      if ids[i] in existing then Invitees(ids[..i], existing) else Invitees(ids[..i], existing) + [ids[i]]
  {
    assert ids[..i + 1][..i] == ids[..i] && ids[..i + 1][i] == ids[i];
  }

  /** The roster entries of the invitees, all registered and with the event's payment status. */
  function InviteEntries(ids: seq<Id>, now: Time, payment: PaymentStatus): (r: seq<Attendee>)
    ensures |r| == |ids|
    ensures forall i :: 0 <= i < |ids| ==> r[i] == NewAttendee(ids[i], now, payment)
  {
    seq(|ids|, i requires 0 <= i < |ids| => NewAttendee(ids[i], now, payment))
  }

  lemma InviteEntriesSnoc(ids: seq<Id>, u: Id, now: Time, payment: PaymentStatus)
    ensures InviteEntries(ids + [u], now, payment) == InviteEntries(ids, now, payment) + [NewAttendee(u, now, payment)]
  {
  }

  /** Without repeats among the invited ids, invitations keep one roster entry per user. */
  lemma InviteKeepsUnique(attendees: seq<Attendee>, ids: seq<Id>, now: Time, payment: PaymentStatus)
    ensures NoDup(ids) ==> NoDup(Invitees(ids, RosterIds(attendees)))
    ensures UniqueRoster(attendees) && NoDup(ids) ==>
      UniqueRoster(attendees + InviteEntries(Invitees(ids, RosterIds(attendees)), now, payment))
  {
    if !NoDup(ids) {
      return;
    }
    var added := Invitees(ids, RosterIds(attendees));
    InviteesNoDup(ids, RosterIds(attendees));
    InviteesMembers(ids, RosterIds(attendees));
    if !UniqueRoster(attendees) {
      return;
    }
    var r := attendees + InviteEntries(added, now, payment);
    forall i, j | 0 <= i < j < |r| ensures r[i].userId != r[j].userId {
      if j >= |attendees| {
        var u := added[j - |attendees|];
        assert r[j].userId == u;
        if i < |attendees| {
          assert u !in RosterIds(attendees);
          assert RosterIds(attendees)[i] == r[i].userId;
        } else {
          assert r[i].userId == added[i - |attendees|];
        }
      }
    }
  }

  lemma {:induction false} InviteesNoDup(ids: seq<Id>, existing: seq<Id>)
    requires NoDup(ids)
    ensures NoDup(Invitees(ids, existing))
  {
    if |ids| > 0 {
      var init := ids[..|ids| - 1];
      assert NoDup(init);
      InviteesNoDup(init, existing);
      InviteesMembers(init, existing);
      var last := ids[|ids| - 1];
      assert last !in init;
    }
  }

  /** One round of the invitation loop: the id gets an entry unless it was on the roster. */
  method InviteOne(roster: seq<Attendee>, existing: seq<Id>, ids: seq<Id>, i: int, now: Time, payment: PaymentStatus,
                   attendees: seq<Attendee>, added: seq<Id>)
    returns (attendees': seq<Attendee>, added': seq<Id>)
    requires 0 <= i < |ids|
    requires added == Invitees(ids[..i], existing) && attendees == roster + InviteEntries(added, now, payment)
    ensures added' == Invitees(ids[..i + 1], existing) && attendees' == roster + InviteEntries(added', now, payment)
  {
    InviteesSnoc(ids, i, existing);
    if ids[i] in existing {
      return attendees, added;
    }
    var entry := NewAttendee(ids[i], now, payment);
    InviteEntriesSnoc(added, ids[i], now, payment);
    assert roster + InviteEntries(added + [ids[i]], now, payment) == attendees + [entry];
    attendees', added' := attendees + [entry], added + [ids[i]];
  }

  /**
   * The invitation loop: each id not on the roster as it stood before the
   * loop gets an entry at the end, in input order.
   */
  method AppendInvitees(roster: seq<Attendee>, ids: seq<Id>, now: Time, payment: PaymentStatus)
    returns (attendees: seq<Attendee>, added: seq<Id>)
    ensures added == Invitees(ids, RosterIds(roster))
    ensures attendees == roster + InviteEntries(added, now, payment)
    ensures NoDup(ids) ==> NoDup(added)
    ensures NoDup(ids) && UniqueRoster(roster) ==> UniqueRoster(attendees)
  {
    var existing := RosterIds(roster);
    attendees, added := roster, [];
    var i := 0;
    while i < |ids|
      invariant 0 <= i <= |ids|
      invariant added == Invitees(ids[..i], existing)
      invariant attendees == roster + InviteEntries(added, now, payment)
    {
      attendees, added := InviteOne(roster, existing, ids, i, now, payment, attendees, added);
      i := i + 1;
    }
    assert ids[..|ids|] == ids;
    InviteKeepsUnique(roster, ids, now, payment);
  }

  /**
   * inviteToEvent: 400 for a missing or empty list, 404, the edit rule, 400
   * when the users found are fewer than the ids given; then every id not on
   * the roster before the call is appended, in order, with no capacity or
   * deadline check, and the appended ids are the answer.
   */
  method InviteToEvent(db: Db, actor: Actor, id: Id, userIds: Option<seq<Id>>, now: Time) returns (r: Result<seq<Id>>)
    modifies db`events
    ensures userIds.None? || userIds.value == [] ==> r == Failure(BadRequest) && unchanged(db)
    ensures userIds.Some? && userIds.value != [] ==>
      var ids := userIds.value;
      && (id !in old(db.events) ==> r == Failure(NotFound) && unchanged(db))
      && (id in old(db.events) ==>
            var e := old(db.events[id]);
            var g := EditGate(db.schools, e, actor, true);
            && (g != Pass ==> r == Failure(g.error) && unchanged(db))
            && (g == Pass && |FoundUsers(db.users, ids)| != |ids| ==> r == Failure(BadRequest) && unchanged(db))
            && (g == Pass && |FoundUsers(db.users, ids)| == |ids| ==>
                  && r == Success(Invitees(ids, RosterIds(e.attendees)))
                  && db.events == old(db.events)[id := e.(attendees := e.attendees +
                                                     InviteEntries(r.value, now, InitialPayment(e)))]))
    ensures r.Success? ==> NoDup(r.value)
    ensures r.Success? && old(UniqueRoster(db.events[id].attendees)) ==> UniqueRoster(db.events[id].attendees)
  {
    if userIds.None? || |userIds.value| == 0 {
      return Failure(BadRequest);
    }
    var ids := userIds.value;
    if id !in db.events {
      return Failure(NotFound);
    }
    var e := db.events[id];
    var g := EditGate(db.schools, e, actor, true);
    if g != Pass {
      return Failure(g.error);
    }
    if |FoundUsers(db.users, ids)| != |ids| {
      return Failure(BadRequest);
    }
    FoundAllIff(db.users, ids);
    var attendees, added := AppendInvitees(e.attendees, ids, now, InitialPayment(e));
    db.events := db.events[id := e.(attendees := attendees)];
    return Success(added);
  }
}
