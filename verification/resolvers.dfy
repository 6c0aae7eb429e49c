/**
 The five resolvers of index.js:61-195 as pure functions. A query maps the
 store to a reply; a mutation maps the store to a `Response` carrying the new
 store and the list of events the resolver returns. Errors never abort: they
 come back as sentinel records of the normal result shape.
 */
module Resolvers {
  import opened Registry

  /** The error conditions the resolvers recognise. */
  datatype ErrorKind = InvalidDoctorId | DuplicateEventId | TimeSlotTaken | EventNotFound

  /** The filler for the fields a sentinel does not use. */
  const NullMarker: string := "null"

  /** The in-band error record for each error kind: the message sits in the
      field it concerns and every other field holds the null marker. */
  function Sentinel(kind: ErrorKind): Event {
    match kind
    case InvalidDoctorId => Event("Invalid ID", NullMarker, NullMarker)
    case DuplicateEventId => Event("Existing event", NullMarker, NullMarker)
    case TimeSlotTaken => Event(NullMarker, NullMarker, "Appointment full at that time")
    case EventNotFound => Event("Non-existing event", NullMarker, NullMarker)
  }

  /** What the `doctor` query returns. The error record carries no `event`
      field, which the GraphQL layer reports as null: hence the Option. */
  datatype DoctorReply = DoctorReply(
    doctorId: string,
    doctorName: string,
    clinicName: string,
    specialty: string,
    event: Option<seq<Event>>)

  const InvalidDoctorReply: DoctorReply :=
    DoctorReply("Invalid ID", NullMarker, NullMarker, NullMarker, None)

  /** The store after a mutation, and the list the mutation returns. */
  datatype Response = Response(store: Store, events: seq<Event>)

  /** Query `doctor` (index.js:63-77). */
  function DoctorQuery(store: Store, doctorId: string): (r: DoctorReply)
    ensures !HasDoctor(store, doctorId) ==> r == InvalidDoctorReply
    ensures forall i | IsFirstDoctor(store, doctorId, i) ::
              r == DoctorReply(doctorId, store[i].doctorName, store[i].clinicName,
                               store[i].specialty, Some(store[i].event))
  {
    match FindDoctor(store, doctorId)
    case None => InvalidDoctorReply
    case Some(i) =>
      var d := store[i];
      DoctorReply(d.doctorId, d.doctorName, d.clinicName, d.specialty, Some(d.event))
  }

  /** Query `event` (index.js:78-88). */
  function EventQuery(store: Store, doctorId: string): (r: seq<Event>)
    ensures !HasDoctor(store, doctorId) ==> r == [Sentinel(InvalidDoctorId)]
    ensures forall i | IsFirstDoctor(store, doctorId, i) :: r == store[i].event
  {
    match FindDoctor(store, doctorId)
    case None => [Sentinel(InvalidDoctorId)]
    case Some(i) => store[i].event
  }

  /** Mutation `createEvent` (index.js:92-132): doctor check, then id check,
      then time check, then append; the reply is looked up afresh from the
      new store, as line 123 does. */
  function CreateEvent(store: Store, doctorId: string, eventId: string,
                       patientName: string, appointmentTime: string): (r: Response)
    ensures !HasDoctor(store, doctorId) ==> r == Response(store, [Sentinel(InvalidDoctorId)])
    ensures forall i | IsFirstDoctor(store, doctorId, i) ::
              HasEventId(store[i].event, eventId) ==>
                r == Response(store, [Sentinel(DuplicateEventId)])
    ensures forall i | IsFirstDoctor(store, doctorId, i) ::
              !HasEventId(store[i].event, eventId) && HasTime(store[i].event, appointmentTime) ==>
                r == Response(store, [Sentinel(TimeSlotTaken)])
    ensures forall i | IsFirstDoctor(store, doctorId, i) ::
              !HasEventId(store[i].event, eventId) && !HasTime(store[i].event, appointmentTime) ==>
                var evs' := store[i].event + [Event(eventId, patientName, appointmentTime)];
                r == Response(WithEvents(store, i, evs'), evs')
  {
    match FindDoctor(store, doctorId)
    case None => Response(store, [Sentinel(InvalidDoctorId)])
    case Some(i) =>
      var evs := store[i].event;
      if FindEvent(evs, eventId).Some? then
        Response(store, [Sentinel(DuplicateEventId)])
      else if TimeTaken(evs, appointmentTime) then
        Response(store, [Sentinel(TimeSlotTaken)])
      else
        var store' := WithEvents(store, i, evs + [Event(eventId, patientName, appointmentTime)]);
        WithEventsKeepsFirstDoctor(store, doctorId, i, evs + [Event(eventId, patientName, appointmentTime)]);
        Response(store', EventQuery(store', doctorId))
  }

  /** Mutation `deleteEvent` (index.js:133-159), with the flat arguments the
      resolver reads. The schema (index.js:28, 32-35) wraps them in `input`,
      so a request through that schema carries no `args.doctorId` and always
      meets the "Invalid ID" branch; this function models the resolver body. */
  function DeleteEvent(store: Store, doctorId: string, eventId: string): (r: Response)
    ensures !HasDoctor(store, doctorId) ==> r == Response(store, [Sentinel(InvalidDoctorId)])
    ensures forall i | IsFirstDoctor(store, doctorId, i) ::
              !HasEventId(store[i].event, eventId) ==>
                r == Response(store, [Sentinel(EventNotFound)])
    ensures forall i, k | IsFirstDoctor(store, doctorId, i) && IsFirstEvent(store[i].event, eventId, k) ::
              var evs' := store[i].event[..k] + store[i].event[k + 1..];
              r == Response(WithEvents(store, i, evs'), evs')
  {
    match FindDoctor(store, doctorId)
    case None => Response(store, [Sentinel(InvalidDoctorId)])
    case Some(i) =>
      var evs := store[i].event;
      match FindEvent(evs, eventId)
      case None => Response(store, [Sentinel(EventNotFound)])
      case Some(k) =>
        var store' := WithEvents(store, i, ArrayRemove(evs, k));
        WithEventsKeepsFirstDoctor(store, doctorId, i, ArrayRemove(evs, k));
        Response(store', EventQuery(store', doctorId))
  }

  /** Mutation `updatePatientName` (index.js:160-193): the event is removed
      and a copy with the new patient name is appended, so it moves to the
      end of the list. */
  function UpdatePatientName(store: Store, doctorId: string, eventId: string,
                             newPatientName: string): (r: Response)
    ensures !HasDoctor(store, doctorId) ==> r == Response(store, [Sentinel(InvalidDoctorId)])
    ensures forall i | IsFirstDoctor(store, doctorId, i) ::
              !HasEventId(store[i].event, eventId) ==>
                r == Response(store, [Sentinel(EventNotFound)])
    ensures forall i, k | IsFirstDoctor(store, doctorId, i) && IsFirstEvent(store[i].event, eventId, k) ::
              var evs := store[i].event;
              var evs' := evs[..k] + evs[k + 1..] + [Event(eventId, newPatientName, evs[k].appointmentTime)];
              r == Response(WithEvents(store, i, evs'), evs')
  {
    match FindDoctor(store, doctorId)
    case None => Response(store, [Sentinel(InvalidDoctorId)])
    case Some(i) =>
      var evs := store[i].event;
      match FindEvent(evs, eventId)
      case None => Response(store, [Sentinel(EventNotFound)])
      case Some(k) =>
        var replacement := Event(eventId, newPatientName, evs[k].appointmentTime);
        var store' := WithEvents(store, i, ArrayRemove(evs, k) + [replacement]);
        WithEventsKeepsFirstDoctor(store, doctorId, i, ArrayRemove(evs, k) + [replacement]);
        Response(store', EventQuery(store', doctorId))
  }

  /** The `Mutation` half of the resolver map, as one request type. */
  datatype Mutation =
    | Create(doctorId: string, eventId: string, patientName: string, appointmentTime: string)
    | Delete(doctorId: string, eventId: string)
    | UpdateName(doctorId: string, eventId: string, newPatientName: string)

  function Apply(store: Store, m: Mutation): Response {
    match m
    case Create(d, e, n, t) => CreateEvent(store, d, e, n, t)
    case Delete(d, e) => DeleteEvent(store, d, e)
    case UpdateName(d, e, n) => UpdatePatientName(store, d, e, n)
  }
}
