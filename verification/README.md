# Appointment registry: a Dafny model

This project models the GraphQL clinic-scheduling server of `index.js`: an
in-memory registry of doctors, each owning an ordered list of appointment
events, and the five resolvers that serve it — the queries `doctor` and
`event` and the mutations `createEvent`, `deleteEvent` and
`updatePatientName`.

The registry is an immutable `seq<Doctor>` (`registry.dfy`). Each resolver is
a pure function (`resolvers.dfy`). A query maps the store to its reply. A
mutation maps the store to a `Response` that holds the new store and the list
of events the resolver returns. Errors are reported in-band, as in the
source. They are sentinel records of the normal shape: `"Invalid ID"`,
`"Existing event"`, `"Appointment full at that time"` or
`"Non-existing event"` in the field concerned, and `"null"` in every other
field. `properties.dfy` states what holds across calls:

- both per-doctor uniqueness invariants (event ids, appointment times);
- the frame of every mutation;
- the removal semantics of `arrayRemove`;
- a create/delete round trip;
- the rename keeping the schedule;
- the scenarios on the seed data.

Modelling decisions:

- `Doctor.find` and `event.find` return the FIRST match. The model looks
  doctors and events up by the position of that first match (`FindIndex`),
  and a mutation changes only the doctor at that position. Duplicate doctor
  ids are not excluded; later duplicates are never touched.
- `arrayRemove` filters out the one object that `find` returned. Every
  event object in the store is a distinct object, so object identity is
  identity of position. `ArrayRemove` is therefore a filter on positions.
  `ArrayRemoveIsRemovalById` shows that, with unique ids, it equals removal
  by id.
- After a successful mutation the resolver looks the doctor up again and
  returns its list. The model does the same: it calls `EventQuery` on the new
  store.
- The `doctor` query's error record has no `event` field, which GraphQL
  reports as null. `DoctorReply.event` is therefore an `Option`, and it is
  `None` for the sentinel.
- `deleteEvent`: the schema declares its arguments wrapped in
  `input: deleteInput!` (index.js:28, 32-35). The resolver reads
  `args.doctorId` and `args.eventId` directly. The model follows the
  resolver and takes flat arguments. Through the declared schema every
  request would reach the `"Invalid ID"` branch.
- `updatePatientName` removes the event and appends its replacement, so the
  renamed event moves to the end of the list. The model keeps this reordering.
- In-band errors are ambiguous: `SentinelAmbiguity` exhibits a successful
  `createEvent` whose reply equals the `"Invalid ID"` error list.

## Model

| member | source | states |
|---|---|---|
| Registry.Seed | index.js:39-58 | the start-up data set: doctor "1" (Angela, CMU-clinic, vaccine-department) with events ("1", Alex, 9:30) and ("2", Chang, 15:30) |
| Registry.FindIndex | index.js:65 | the result is the position of the first element satisfying the predicate, and it is None exactly when no element does |
| Registry.FindDoctor | index.js:65-66 | the selected doctor is the first one with that id; none is selected exactly when no doctor has it |
| Registry.FindEvent | index.js:97 | the selected event is the first one with that eventId; none exactly when no event has it |
| Registry.TimeTaken | index.js:104 | true exactly when some event of the list occupies that appointment time |
| Registry.ArrayRemove | index.js:198-202 | filtering out the element at one position gives the list before it followed by the list after it; an absent position removes nothing |
| Resolvers.Sentinel | index.js:98-110 | the error records: "Invalid ID", "Existing event" or "Non-existing event" in eventId, or "Appointment full at that time" in appointmentTime, with "null" in every other field |
| Resolvers.Apply | index.js:91-194 | the Mutation map: each request kind is dispatched to its resolver |
| Resolvers.DoctorQuery | index.js:63-77 | an unknown id gives the "Invalid ID" record with "null" fields and no event list; a known id gives the first matching doctor with its events |
| Resolvers.EventQuery | index.js:78-88 | an unknown id gives the one-element "Invalid ID" list; a known id gives the first matching doctor's event list unchanged |
| Resolvers.CreateEvent | index.js:92-132 | checks run in order: unknown doctor, then existing eventId (even when the time also collides), then taken time; each error leaves the store unchanged; otherwise the new event is appended last and the reply is the new list |
| Resolvers.DeleteEvent | index.js:133-159 | unknown doctor or absent eventId give their sentinels with the store unchanged; otherwise exactly the first event with that id is removed, the rest keep their order, and the reply is the new list |
| Resolvers.UpdatePatientName | index.js:160-193 | unknown doctor or absent eventId give their sentinels with the store unchanged; otherwise the event leaves its place and reappears last with the new name, its id and its old time |
| Properties.RemoveAtCounts | index.js:147-148 | a successful removal shortens the list by one and drops exactly one copy of the removed event |
| Properties.ArrayRemoveIsRemovalById | index.js:198-202 | with unique ids, removing the first event with an id equals removing every event with that id |
| Properties.RemoveKeepsConsistent | index.js:147-148 | removing one event keeps ids and times pairwise distinct, and no remaining event shares the removed event's id or time |
| Properties.AppendKeepsConsistent | index.js:97-120 | appending an event whose id and time are both absent keeps ids and times pairwise distinct |
| Properties.CreateEventKeepsInvariants | index.js:97-120 | if every doctor's event ids and times were pairwise distinct before createEvent, they still are after it |
| Properties.DeleteEventKeepsInvariants | index.js:137-148 | deleteEvent keeps every doctor's event ids and times pairwise distinct |
| Properties.UpdatePatientNameKeepsInvariants | index.js:173-182 | updatePatientName keeps every doctor's event ids and times pairwise distinct |
| Properties.MutationKeepsInvariants | index.js:91-194 | every mutation keeps the store valid |
| Properties.MutationFrame | index.js:91-194 | a mutation changes only the event list of the first doctor with the given id; the doctors, their ids and descriptive fields, and every other doctor stay the same; an unknown doctor changes nothing |
| Properties.MutationReplyIsCurrentList | index.js:120-123 | for a known doctor, a mutation that passes its checks (fresh id and free time for create, existing id for delete and rename) returns the list the event query reports afterwards, and one that fails leaves the store unchanged |
| Properties.QueriesAgree | index.js:63-88 | the doctor query carries an event list exactly when the doctor exists, that list is the event query's reply, and both report an unknown id as "Invalid ID" |
| Properties.CreateThenDelete | index.js:92-159 | deleting the event just created restores the original store and returns the doctor's original list |
| Properties.DeleteTwice | index.js:133-150 | with unique ids, a second delete of the same event reports "Non-existing event" and changes nothing |
| Properties.UpdateKeepsSchedule | index.js:173-184 | a rename keeps the list's length and its multiset of (eventId, appointmentTime) slots, and the renamed event is last with the new name and its old time |
| Properties.MoveToEndKeepsSlots | index.js:180-182 | moving an event to the end with only its patient name changed keeps the multiset of slots |
| Properties.SentinelsDistinct | index.js:98-110 | the four error records are equal only for the same error kind |
| Properties.SentinelAmbiguity | index.js:115-123 | a successful createEvent can return a list equal to the "Invalid ID" error list |
| Properties.SeedIsValid | index.js:39-58 | the seed data satisfies both per-doctor invariants |
| Properties.SeedCreate | index.js:92-123 | from the seed, creating event "3" for Sam at 11:00 returns three events ending with the new one |
| Properties.SeedDelete | index.js:133-150 | from the seed, deleting event "1" returns only Chang's 15:30 event |
| Properties.SeedUpdate | index.js:160-184 | from the seed, renaming event "2" to Lee returns Alex's event followed by Lee's 15:30 event |

## Left out

- Server construction, `startStandaloneServer`, port 4567 and the start-up log line (index.js:1-2, 204-214): transport and I/O.
- The GraphQL schema (index.js:5-36): it is used only for record shapes. Schema validation, nullability and the coercion of `ID` arguments to strings are not modelled.
- Resolvers.DeleteEvent: takes flat `doctorId` and `eventId`, as the resolver body reads them. It does not model the `input` wrapper the schema declares. Through that schema every call would yield "Invalid ID".
- JavaScript object identity, and the aliasing between the returned array and the stored one: the model works with values, and returns the list as it stands after the call.
- Concurrency: the handlers are synchronous and run to completion, so each call is one function application.
- The parent, context and info resolver parameters are unused by the source, so the model omits them.
