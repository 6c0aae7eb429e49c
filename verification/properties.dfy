/**
 Properties of the resolvers that relate several calls or hold across all
 mutations: the per-doctor uniqueness invariants, the frame of a mutation,
 the removal semantics of `arrayRemove`, round trips, and the scenarios the
 seed data admits.
 */
module Properties {
  import opened Registry
  import opened Resolvers

  // ---------------------------------------------------------------------
  // Removal

  /** Removing the element at position k leaves every other element, in
      order, and drops exactly one copy of the removed one. */
  lemma RemoveAtCounts<T>(s: seq<T>, k: nat)
    requires k < |s|
    ensures |ArrayRemove(s, k)| == |s| - 1
    ensures multiset(ArrayRemove(s, k)) + multiset{s[k]} == multiset(s)
  {
    var a, b := s[..k], s[k + 1..];
    assert ArrayRemove(s, k) == a + b;
    SliceRemovalCounts(s, k);
  }

  /** The slice form of RemoveAtCounts. */
  lemma SliceRemovalCounts<T>(s: seq<T>, k: nat)
    requires k < |s|
    ensures multiset(s[..k] + s[k + 1..]) + multiset{s[k]} == multiset(s)
  {
    assert s == s[..k] + [s[k]] + s[k + 1..];
  }

  /** With unique ids, dropping the first event with id (what the resolvers
      do) is the same as dropping every event with that id. */
  lemma {:induction false} ArrayRemoveIsRemovalById(evs: seq<Event>, id: string, k: nat)
    requires UniqueEventIds(evs)
    requires IsFirstEvent(evs, id, k)
    ensures ArrayRemove(evs, k) == WithoutId(evs, id)
    decreases |evs|
  {
    if k == 0 {
      assert forall j :: 0 <= j < |evs[1..]| ==> evs[1..][j].eventId != id by {
        forall j | 0 <= j < |evs[1..]| ensures evs[1..][j].eventId != id {
          assert evs[1..][j] == evs[j + 1];
        }
      }
      NoIdMeansNothingRemoved(evs[1..], id);
    } else {
      var tail := evs[1..];
      assert UniqueEventIds(tail) by {
        forall a, b | 0 <= a < b < |tail| ensures tail[a].eventId != tail[b].eventId {
          assert tail[a] == evs[a + 1] && tail[b] == evs[b + 1];
        }
      }
      assert IsFirstEvent(tail, id, k - 1);
      ArrayRemoveIsRemovalById(tail, id, k - 1);
    }
  }

  lemma {:induction false} NoIdMeansNothingRemoved(evs: seq<Event>, id: string)
    requires forall j :: 0 <= j < |evs| ==> evs[j].eventId != id
    ensures WithoutId(evs, id) == evs
    decreases |evs|
  {
    if |evs| > 0 {
      NoIdMeansNothingRemoved(evs[1..], id);
      assert evs == [evs[0]] + evs[1..];
    }
  }

  // ---------------------------------------------------------------------
  // Per-doctor invariants

  lemma AppendKeepsConsistent(evs: seq<Event>, e: Event)
    requires UniqueEventIds(evs) && UniqueTimes(evs)
    requires !HasEventId(evs, e.eventId) && !HasTime(evs, e.appointmentTime)
    ensures UniqueEventIds(evs + [e]) && UniqueTimes(evs + [e])
  {
  }

  /** arrayRemove keeps both per-doctor invariants, and what remains shares
      neither the id nor the time of the removed event. */
  lemma RemoveKeepsConsistent(evs: seq<Event>, k: nat)
    requires k < |evs|
    requires UniqueEventIds(evs) && UniqueTimes(evs)
    ensures UniqueEventIds(ArrayRemove(evs, k)) && UniqueTimes(ArrayRemove(evs, k))
    ensures !HasEventId(ArrayRemove(evs, k), evs[k].eventId)
    ensures !HasTime(ArrayRemove(evs, k), evs[k].appointmentTime)
  {
    assert ArrayRemove(evs, k) == evs[..k] + evs[k + 1..];
    SliceRemovalKeepsConsistent(evs, k);
  }

  /** The slice form of RemoveKeepsConsistent, which the solver handles
      best apart from the definition of ArrayRemove. */
  lemma SliceRemovalKeepsConsistent(evs: seq<Event>, k: nat)
    requires k < |evs|
    requires UniqueEventIds(evs) && UniqueTimes(evs)
    ensures var r := evs[..k] + evs[k + 1..];
            && UniqueEventIds(r) && UniqueTimes(r)
            && !HasEventId(r, evs[k].eventId) && !HasTime(r, evs[k].appointmentTime)
  {
  }

  lemma WithEventsKeepsValid(store: Store, i: nat, evs: seq<Event>)
    requires i < |store| && ValidStore(store)
    requires UniqueEventIds(evs) && UniqueTimes(evs)
    ensures ValidStore(WithEvents(store, i, evs))
  {
  }

  /** createEvent keeps event ids and appointment times pairwise distinct. */
  lemma CreateEventKeepsInvariants(store: Store, doctorId: string, eventId: string,
                                   patientName: string, appointmentTime: string)
    requires ValidStore(store)
    ensures ValidStore(CreateEvent(store, doctorId, eventId, patientName, appointmentTime).store)
  {
    match FindDoctor(store, doctorId)
    case None =>
    case Some(i) =>
      var evs := store[i].event;
      var e := Event(eventId, patientName, appointmentTime);
      if !HasEventId(evs, eventId) && !HasTime(evs, appointmentTime) {
        AppendKeepsConsistent(evs, e);
        WithEventsKeepsValid(store, i, evs + [e]);
      }
  }

  /** deleteEvent keeps event ids and appointment times pairwise distinct. */
  lemma DeleteEventKeepsInvariants(store: Store, doctorId: string, eventId: string)
    requires ValidStore(store)
    ensures ValidStore(DeleteEvent(store, doctorId, eventId).store)
  {
    match FindDoctor(store, doctorId)
    case None =>
    case Some(i) =>
      var evs := store[i].event;
      match FindEvent(evs, eventId)
      case None =>
      case Some(k) =>
        RemoveKeepsConsistent(evs, k);
        WithEventsKeepsValid(store, i, ArrayRemove(evs, k));
  }

  /** updatePatientName keeps event ids and appointment times pairwise
      distinct: the re-appended event reuses the id and time of the one just
      removed, which no remaining event shares. */
  lemma UpdatePatientNameKeepsInvariants(store: Store, doctorId: string, eventId: string,
                                         newPatientName: string)
    requires ValidStore(store)
    ensures ValidStore(UpdatePatientName(store, doctorId, eventId, newPatientName).store)
  {
    match FindDoctor(store, doctorId)
    case None =>
    case Some(i) =>
      var evs := store[i].event;
      match FindEvent(evs, eventId)
      case None =>
      case Some(k) =>
        var rest := ArrayRemove(evs, k);
        var replacement := Event(eventId, newPatientName, evs[k].appointmentTime);
        RemoveKeepsConsistent(evs, k);
        AppendKeepsConsistent(rest, replacement);
        WithEventsKeepsValid(store, i, rest + [replacement]);
  }

  /** Every mutation keeps the store valid. */
  lemma MutationKeepsInvariants(store: Store, m: Mutation)
    requires ValidStore(store)
    ensures ValidStore(Apply(store, m).store)
  {
    match m
    case Create(d, e, n, t) => CreateEventKeepsInvariants(store, d, e, n, t);
    case Delete(d, e) => DeleteEventKeepsInvariants(store, d, e);
    case UpdateName(d, e, n) => UpdatePatientNameKeepsInvariants(store, d, e, n);
  }

  // ---------------------------------------------------------------------
  // Frame

  /** A mutation touches only the event list of the doctor `Doctor.find`
      selects: the doctors, their ids and descriptive fields, and every other
      doctor's events stay as they were; an unknown doctor changes nothing. */
  lemma MutationFrame(store: Store, m: Mutation)
    ensures !HasDoctor(store, m.doctorId) ==> Apply(store, m).store == store
    ensures |Apply(store, m).store| == |store|
    ensures forall i | IsFirstDoctor(store, m.doctorId, i) ::
              && Apply(store, m).store[i] == store[i].(event := Apply(store, m).store[i].event)
              && forall j :: 0 <= j < |store| && j != i ==> Apply(store, m).store[j] == store[j]
  {
  }

  /** Whether a mutation passes its checks on the event list of its doctor:
      createEvent needs a fresh id and a free time, the other two an
      existing id. */
  predicate Succeeds(evs: seq<Event>, m: Mutation) {
    match m
    case Create(_, e, _, t) => !HasEventId(evs, e) && !HasTime(evs, t)
    case Delete(_, e) => HasEventId(evs, e)
    case UpdateName(_, e, _) => HasEventId(evs, e)
  }

  /** A mutation that passes its checks returns the list the `event` query
      reports for that doctor afterwards; one that fails changes nothing. */
  lemma MutationReplyIsCurrentList(store: Store, m: Mutation, i: nat)
    requires IsFirstDoctor(store, m.doctorId, i)
    ensures Succeeds(store[i].event, m) ==>
              Apply(store, m).events == EventQuery(Apply(store, m).store, m.doctorId)
    ensures !Succeeds(store[i].event, m) ==> Apply(store, m).store == store
  {
    var evs := store[i].event;
    if Succeeds(evs, m) {
      var evs': seq<Event>;
      match m {
        case Create(d, e, n, t) =>
          evs' := evs + [Event(e, n, t)];
        case Delete(d, e) =>
          var k := FindEvent(evs, e).value;
          evs' := evs[..k] + evs[k + 1..];
        case UpdateName(d, e, n) =>
          var k := FindEvent(evs, e).value;
          evs' := evs[..k] + evs[k + 1..] + [Event(e, n, evs[k].appointmentTime)];
      }
      assert Apply(store, m) == Response(WithEvents(store, i, evs'), evs');
      WithEventsKeepsFirstDoctor(store, m.doctorId, i, evs');
    }
  }

  /** The two queries agree: `doctor` carries exactly the list `event`
      returns, and both report an unknown id. */
  lemma QueriesAgree(store: Store, doctorId: string)
    ensures HasDoctor(store, doctorId) <==> DoctorQuery(store, doctorId).event.Some?
    ensures HasDoctor(store, doctorId) ==>
              DoctorQuery(store, doctorId).event == Some(EventQuery(store, doctorId))
    ensures !HasDoctor(store, doctorId) ==>
              DoctorQuery(store, doctorId).doctorId == EventQuery(store, doctorId)[0].eventId == "Invalid ID"
  {
  }

  // ---------------------------------------------------------------------
  // Round trips and idempotence

  /** Deleting the event just created restores the store and returns the
      doctor's list as it was before the creation. */
  lemma CreateThenDelete(store: Store, doctorId: string, eventId: string,
                         patientName: string, appointmentTime: string)
    requires CreateEvent(store, doctorId, eventId, patientName, appointmentTime).store != store
    ensures var created := CreateEvent(store, doctorId, eventId, patientName, appointmentTime);
            DeleteEvent(created.store, doctorId, eventId) == Response(store, EventQuery(store, doctorId))
  {
    var i := FindDoctor(store, doctorId).value;
    var evs := store[i].event;
    var e := Event(eventId, patientName, appointmentTime);
    var created := CreateEvent(store, doctorId, eventId, patientName, appointmentTime);
    assert created.store == WithEvents(store, i, evs + [e]);
    assert IsFirstDoctor(created.store, doctorId, i);
    assert IsFirstEvent(evs + [e], eventId, |evs|);
    assert (evs + [e])[..|evs|] + (evs + [e])[|evs| + 1..] == evs;
    assert WithEvents(created.store, i, evs) == store;
  }

  /** Once an event is deleted from a doctor with unique ids, a second
      delete of the same id reports a non-existing event and changes nothing. */
  lemma DeleteTwice(store: Store, doctorId: string, eventId: string)
    requires ValidStore(store)
    ensures var once := DeleteEvent(store, doctorId, eventId);
            var twice := DeleteEvent(once.store, doctorId, eventId);
            twice.store == once.store
            && (HasDoctor(store, doctorId) ==> twice.events == [Sentinel(EventNotFound)])
  {
    match FindDoctor(store, doctorId)
    case None =>
    case Some(i) =>
      var evs := store[i].event;
      match FindEvent(evs, eventId)
      case None =>
      case Some(k) =>
        RemoveKeepsConsistent(evs, k);
        WithEventsKeepsFirstDoctor(store, doctorId, i, ArrayRemove(evs, k));
  }

  /** updatePatientName changes names only: the list keeps its length and
      its multiset of (eventId, appointmentTime) slots, and the renamed event
      is the last one, with the new name and the time it had before. */
  lemma UpdateKeepsSchedule(store: Store, doctorId: string, eventId: string,
                            newPatientName: string, i: nat)
    requires IsFirstDoctor(store, doctorId, i) && HasEventId(store[i].event, eventId)
    ensures var r := UpdatePatientName(store, doctorId, eventId, newPatientName);
            && |r.events| == |store[i].event|
            && multiset(Slots(r.events)) == multiset(Slots(store[i].event))
            && r.events[|r.events| - 1].eventId == eventId
            && r.events[|r.events| - 1].patientName == newPatientName
            && forall k | IsFirstEvent(store[i].event, eventId, k) ::
                 r.events[|r.events| - 1].appointmentTime == store[i].event[k].appointmentTime
  {
    var evs := store[i].event;
    var k := FindEvent(evs, eventId).value;
    var replacement := Event(eventId, newPatientName, evs[k].appointmentTime);
    assert UpdatePatientName(store, doctorId, eventId, newPatientName).events
        == evs[..k] + evs[k + 1..] + [replacement];
    MoveToEndKeepsSlots(evs, k, replacement);
  }

  /** Moving position k to the end under a new patient name keeps the slots. */
  lemma MoveToEndKeepsSlots(evs: seq<Event>, k: nat, x: Event)
    requires k < |evs|
    requires x.eventId == evs[k].eventId && x.appointmentTime == evs[k].appointmentTime
    ensures multiset(Slots(evs[..k] + evs[k + 1..] + [x])) == multiset(Slots(evs))
  {
    var a, b := evs[..k], evs[k + 1..];
    assert evs == a + [evs[k]] + b;
    SlotsConcat(a + [evs[k]], b);
    SlotsConcat(a, [evs[k]]);
    SlotsConcat(a + b, [x]);
    SlotsConcat(a, b);
    assert Slots([x]) == Slots([evs[k]]);
  }

  /** The schedule of a list: its (eventId, appointmentTime) pairs. */
  function Slots(evs: seq<Event>): seq<(string, string)> {
    seq(|evs|, k requires 0 <= k < |evs| => (evs[k].eventId, evs[k].appointmentTime))
  }

  lemma SlotsConcat(a: seq<Event>, b: seq<Event>)
    ensures Slots(a + b) == Slots(a) + Slots(b)
  {
  }

  // ---------------------------------------------------------------------
  // Sentinels

  /** The four error records are pairwise distinct. */
  lemma SentinelsDistinct(a: ErrorKind, b: ErrorKind)
    ensures Sentinel(a) == Sentinel(b) <==> a == b
  {
  }

  /** The in-band convention is ambiguous: a successful createEvent can return
      a list equal to the "Invalid ID" error list. */
  lemma SentinelAmbiguity()
    ensures var store := [Doctor("7", "n", "c", "s", [])];
            var r := CreateEvent(store, "7", "Invalid ID", "null", "null");
            r.store != store && r.events == EventQuery(store, "missing")
  {
  }

  // ---------------------------------------------------------------------
  // Scenarios on the seed data

  lemma SeedIsValid()
    ensures ValidStore(Seed())
  {
  }

  lemma SeedCreate()
    ensures var r := CreateEvent(Seed(), "1", "3", "Sam", "11:00");
            |r.events| == 3 && r.events[2] == Event("3", "Sam", "11:00")
  {
  }

  lemma SeedDelete()
    ensures DeleteEvent(Seed(), "1", "1").events == [Event("2", "Chang", "15:30")]
  {
  }

  lemma SeedUpdate()
    ensures UpdatePatientName(Seed(), "1", "2", "Lee").events
         == [Event("1", "Alex", "9:30"), Event("2", "Lee", "15:30")]
  {
  }
}
