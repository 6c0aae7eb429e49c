/**
 The in-memory appointment registry of index.js: a sequence of doctors, each
 owning an ordered list of events. Everything here is an immutable value; the
 resolvers return a new store instead of mutating the process-wide array.
 */
module Registry {

  datatype Option<+T> = None | Some(value: T)

  /** One appointment: the event id, the patient, and an opaque time token. */
  datatype Event = Event(eventId: string, patientName: string, appointmentTime: string)

  /** A doctor record with its descriptive fields and its schedule. */
  datatype Doctor = Doctor(
    doctorId: string,
    doctorName: string,
    clinicName: string,
    specialty: string,
    event: seq<Event>)

  type Store = seq<Doctor>

  /** The data set the server starts with (index.js:39-58). */
  function Seed(): Store {
    [Doctor("1", "Angela", "CMU-clinic", "vaccine-department",
            [Event("1", "Alex", "9:30"), Event("2", "Chang", "15:30")])]
  }

  /** Index of the first element satisfying p: what `Array.prototype.find`
      selects, reported by position so that the caller can remove it. */
  function FindIndex<T>(s: seq<T>, p: T -> bool): (r: Option<nat>)
    ensures r.Some? ==> r.value < |s| && p(s[r.value])
    ensures r.Some? ==> forall j :: 0 <= j < r.value ==> !p(s[j])
    ensures r.None? <==> forall j :: 0 <= j < |s| ==> !p(s[j])
  {
    if |s| == 0 then None
    else if p(s[0]) then Some(0)
    else match FindIndex(s[1..], p)
      case None => None
      case Some(k) => Some(k + 1)
  }

  // ---------------------------------------------------------------------
  // Reference predicates, stated without reference to the search.

  predicate HasDoctor(store: Store, id: string) {
    exists i :: 0 <= i < |store| && store[i].doctorId == id
  }

  /** i is the position of the doctor `Doctor.find` returns for id. */
  predicate IsFirstDoctor(store: Store, id: string, i: int) {
    && 0 <= i < |store|
    && store[i].doctorId == id
    && forall j :: 0 <= j < i ==> store[j].doctorId != id
  }

  predicate HasEventId(evs: seq<Event>, id: string) {
    exists k :: 0 <= k < |evs| && evs[k].eventId == id
  }

  predicate HasTime(evs: seq<Event>, time: string) {
    exists k :: 0 <= k < |evs| && evs[k].appointmentTime == time
  }

  /** k is the position of the event `event.find` returns for id. */
  predicate IsFirstEvent(evs: seq<Event>, id: string, k: int) {
    && 0 <= k < |evs|
    && evs[k].eventId == id
    && forall j :: 0 <= j < k ==> evs[j].eventId != id
  }

  /** Per-doctor invariant: no two events share an id. */
  predicate UniqueEventIds(evs: seq<Event>) {
    forall i, j :: 0 <= i < j < |evs| ==> evs[i].eventId != evs[j].eventId
  }

  /** Per-doctor invariant: no two events share a time slot. */
  predicate UniqueTimes(evs: seq<Event>) {
    forall i, j :: 0 <= i < j < |evs| ==> evs[i].appointmentTime != evs[j].appointmentTime
  }

  predicate Consistent(d: Doctor) {
    UniqueEventIds(d.event) && UniqueTimes(d.event)
  }

  predicate ValidStore(store: Store) {
    forall i :: 0 <= i < |store| ==> Consistent(store[i])
  }

  // ---------------------------------------------------------------------
  // The lookups the resolvers perform.

  /** `Doctor.find(x => x.doctorId === id)`, by position. */
  function FindDoctor(store: Store, id: string): (r: Option<nat>)
    ensures r.Some? ==> IsFirstDoctor(store, id, r.value)
    ensures r.None? <==> !HasDoctor(store, id)
  {
    FindIndex(store, (d: Doctor) => d.doctorId == id)
  }

  /** `doctor.event.find(y => y.eventId === id)`, by position. */
  function FindEvent(evs: seq<Event>, id: string): (r: Option<nat>)
    ensures r.Some? ==> IsFirstEvent(evs, id, r.value)
    ensures r.None? <==> !HasEventId(evs, id)
  {
    FindIndex(evs, (e: Event) => e.eventId == id)
  }

  /** Whether `doctor.event.find(y => y.appointmentTime === time)` finds one. */
  function TimeTaken(evs: seq<Event>, time: string): (b: bool)
    ensures b <==> HasTime(evs, time)
  {
    FindIndex(evs, (e: Event) => e.appointmentTime == time).Some?
  }

  /** Replaces the event list of the doctor at position i and nothing else. */
  function WithEvents(store: Store, i: nat, evs: seq<Event>): Store
    requires i < |store|
  {
    store[i := store[i].(event := evs)]
  }

  /** Replacing a doctor's events keeps that doctor the first one with its
      id, so a later `Doctor.find` returns the updated record. */
  lemma WithEventsKeepsFirstDoctor(store: Store, id: string, i: nat, evs: seq<Event>)
    requires IsFirstDoctor(store, id, i)
    ensures IsFirstDoctor(WithEvents(store, i, evs), id, i)
    ensures WithEvents(store, i, evs)[i].event == evs
  {
  }

  /** `arrayRemove(arr, value)` (index.js:198-202): a filter that keeps every
      element that is not the object `value`. Event objects in the store are
      all distinct, so object identity is identity of position, and the
      element to drop is named by its position `target`. */
  function ArrayRemove<T>(arr: seq<T>, target: int): (r: seq<T>)
    ensures 0 <= target < |arr| ==> r == arr[..target] + arr[target + 1..]
    ensures !(0 <= target < |arr|) ==> r == arr
    decreases |arr|
  {
    if |arr| == 0 then []
    else (if target == 0 then [] else [arr[0]]) + ArrayRemove(arr[1..], target - 1)
  }

  /** A removal by value, keeping every event whose id differs from id. */
  function WithoutId(evs: seq<Event>, id: string): (r: seq<Event>)
    ensures |r| <= |evs|
    ensures forall k :: 0 <= k < |r| ==> r[k].eventId != id
    ensures forall e :: e in r ==> e in evs
  {
    if |evs| == 0 then []
    else (if evs[0].eventId == id then [] else [evs[0]]) + WithoutId(evs[1..], id)
  }
}
