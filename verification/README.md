# Interview slot allocation and document-path checks

A Dafny model of the interview scheduler of a recruiting backend. Staff
open interview days ("días de entrevista") with a number of slots
("cupos"). Applicants ("postulantes"), identified by their document
number, book one of the free slots and receive an eight-character
admission ticket ("ficho"). They may cancel the booking, which gives the
slot back. Staff may delete a day, mark attendance and change a day's
status by hand.

The model also covers two pieces of the registration controller:

- the download endpoint, which maps a requested path onto a storage
  bucket, an object path and a download file name;
- the checks that the multi-document upload runs before it stores
  anything.

The three store tables are immutable maps held in a `State`
(`store.dfy`). These are interview days, reservations, and the `estado`
of each application. Every handler is a pure function from the state and
the request fields to either a failure, which leaves the state unchanged,
or a new state and a reply (`interviews.dfy`). Each failure carries the
HTTP status it is answered with (`Common.Status`).

Request fields are checked for JavaScript truthiness:

- A field of the JSON body that is missing, `0` or `""` is `None` or
  fails `GivenInt` / `GivenStr`.
- An id taken from the URL path is always a non-empty string, which is
  truthy even when it reads `0`. Such an id is rejected only when it is
  absent (`None`), and `0` is looked up like any other id.

A `.single()` query answers with the one matching row when exactly one
row matches. With zero rows or with several it fails with the same error
code. A `.maybeSingle()` query answers with no row and no error when
nothing matches, and fails with that code when several rows match. Each
handler's reaction to these answers is modelled case by case.

The central property is the store invariant `Store.Valid`, proved in
`invariants.dfy`. For every day, free slots plus reservations equal
capacity. Every reservation points at an existing day and application.
Ticket codes and day dates are unique. Every handler keeps the invariant,
so any sequence of requests does (`Invariants.Run`).

The code, not the intended design, decides the model where the two
differ:

- Booking does not look for an earlier reservation of the same
  applicant, so an applicant can book twice (see Findings).
- Cancelling adds one slot back without clamping at the capacity. In a
  valid store the capacity is never exceeded anyway
  (`Invariants.CancelKeepsValid`).
- A capacity below zero is accepted when a day is created. The invariant
  therefore bounds the free slots by `0 <= available <= total` only for
  days created with a non-negative capacity.

## Model

| member | source | states |
|---|---|---|
| Common.Status | utils/errorHandler.js:2-10 | an unclassified store error gets 500 (the default), an ownership mismatch 403, an absent row 404, a uniqueness clash 409, and exactly the validation failures get 400 |
| Strings.IndexOf | controllers/registroController.js:285-290 | the index found is an occurrence of the pattern and no earlier index at or after the start is one; -1 only when none exists |
| Strings.ReplaceFirst | controllers/registroController.js:285-290 | a pattern that starts the string is replaced by the replacement followed by the rest of the string |
| Strings.ReplaceFirstOccurrence | controllers/registroController.js:285-290 | `replace` with a string pattern rewrites exactly its first occurrence and keeps everything around it |
| Strings.ReplaceFirstAbsent | controllers/registroController.js:285-290 | without an occurrence the string comes back unchanged |
| Strings.Split | controllers/registroController.js:316 | `split` yields at least one piece, no piece contains the separator, a string without separator is its own single piece, and a string with one yields at least two |
| Strings.JoinSplit | controllers/registroController.js:316 | joining the pieces of a split with the separator gives back the original string |
| Strings.LastSegment | controllers/registroController.js:316 | `pop()` of the split is a piece without the separator |
| Strings.LastSegmentIsTail | controllers/registroController.js:316 | the last piece is a suffix of the string and is either the whole string or preceded by the separator |
| Ticket.HexLower | controllers/entrevistasController.js:134 | `toString('hex')` writes two lower-case digits per byte, high nibble first |
| Ticket.AsciiUpper | controllers/entrevistasController.js:134 | `toUpperCase` keeps the length and maps each character on its own |
| Ticket.Code | controllers/entrevistasController.js:134 | the ticket of n bytes has 2n upper-case hex digits, the two at 2j and 2j+1 giving byte j's high and low nibble |
| Ticket.DecodeCode | controllers/entrevistasController.js:134 | reading the hex digits back gives the random bytes again |
| Ticket.CodeInjective | controllers/entrevistasController.js:134 | different random bytes never give the same ticket |
| Store.ParseDayStatus | controllers/entrevistasController.js:487-491 | a day status is accepted iff it is one of 'Activo', 'Inactivo', 'Lleno', 'Finalizado', and the accepted value is named by that string |
| Store.ParseAttendance | controllers/entrevistasController.js:449-453 | an attendance value is accepted iff it is one of 'Pendiente', 'Asistió', 'No Asistió', and the accepted value is named by that string |
| Store.StatusNamesRoundTrip | controllers/entrevistasController.js:449-491 | every allowed status name reads back as the status it names |
| Store.SlotsWithinCapacity | controllers/entrevistasController.js:130-160 | in a valid store a day created with non-negative capacity has between 0 and capacity free slots |
| Interviews.CheckPostulante | controllers/entrevistasController.js:11-83 | missing document gives 400; no application with that document gives 404 and several give 500; otherwise a reservation is reported only when the reservation lookup finds exactly one row, else the stage decides |
| Interviews.CheckPostulanteOutcome | controllers/entrevistasController.js:35-79 | for the one applicant with the document, a single reservation is reported before any stage check; otherwise `can_schedule` iff the stage is allowed, and a rejection naming the stage otherwise |
| Interviews.Reserve | controllers/entrevistasController.js:111-220 | each failure iff its cause, in the handler's order (missing fields 400, unknown day 404, inactive or full day 400, ticket already used 409, unknown application 500); a success inserts one row with the fixed window and a fresh id, takes one slot from that day only, moves the applicant to 'Entrevista', and returns an 8-character ticket |
| Interviews.Cancel | controllers/entrevistasController.js:222-286 | an absent path id gives 400, an unknown reservation 404 (id `0` included), and a different owner named in the body 403, each iff its cause; a success removes just that row, gives its day one slot back when the day exists and resets the applicant to 'Postulado' |
| Interviews.CreateDay | controllers/entrevistasController.js:291-331 | missing date or falsy capacity 400; 409 iff exactly one day already has that date; success iff neither, and then one new active day with all slots free under a fresh id, nothing else changed |
| Interviews.DeleteDay | controllers/entrevistasController.js:391-437 | succeeds iff a path id is present, even for a day that does not exist; removes the day and exactly its reservations, returns exactly the applications that held them to 'Postulado', and leaves every other row as it was |
| Interviews.SetAttendance | controllers/entrevistasController.js:440-475 | 400 for an absent path id, a falsy value or a value outside the three names; 404 iff no such reservation; success iff none of these, and a success changes only that reservation's attendance, to the named value |
| Interviews.SetDayStatus | controllers/entrevistasController.js:478-513 | 400 for an absent path id, a falsy value or a value outside the four names; 404 iff no such day; success iff none of these, and a success changes only that day's status, to the named value |
| Invariants.ReservationsOnAfterBooking | controllers/entrevistasController.js:136-160 | a booking adds its row to its own day's reservations and to no other day's |
| Invariants.ReserveKeepsValid | controllers/entrevistasController.js:136-160 | a successful booking keeps the store invariant: the day gains one reservation, loses one free slot and stays at zero or more |
| Invariants.LastSlotTakenOnce | controllers/entrevistasController.js:130-160 | once the last slot is booked, the day has zero free slots and any further booking of it is refused as unavailable |
| Invariants.ReservationsOnAfterRelease | controllers/entrevistasController.js:245-264 | a cancellation removes its row from its own day's reservations only |
| Invariants.CancelKeepsValid | controllers/entrevistasController.js:245-276 | a successful cancellation keeps the store invariant and gives exactly one slot back to the reservation's day |
| Invariants.CancelUndoesReserve | controllers/entrevistasController.js:136-276 | cancelling a fresh booking restores the day and the reservations exactly; only the applicant's stage differs, now 'Postulado' |
| Invariants.DaysOnAtMostOne | controllers/entrevistasController.js:299-313 | in a valid store a date is held by at most one day |
| Invariants.CreateDayKeepsValid | controllers/entrevistasController.js:295-320 | in a valid store creating a day conflicts iff its date is taken; the new day has no reservations and the invariant holds |
| Invariants.DeleteDayKeepsValid | controllers/entrevistasController.js:400-431 | deleting a day keeps the store invariant; every other day keeps its reservations |
| Invariants.DeleteDayUndoesCreateDay | controllers/entrevistasController.js:291-437 | creating a day and deleting it again restores the days, reservations and applications |
| Invariants.AttendanceKeepsValid | controllers/entrevistasController.js:455-459 | recording attendance keeps the store invariant |
| Invariants.DayStatusKeepsValid | controllers/entrevistasController.js:493-497 | changing a day's status keeps the store invariant |
| Invariants.StepKeepsValid | controllers/entrevistasController.js:111-513 | any one state-changing request keeps the store invariant, whether it succeeds or fails |
| Invariants.Run | controllers/entrevistasController.js:111-513 | after any sequence of requests from a valid store, free slots plus reservations equal capacity for every day, and lie between 0 and the capacity when that is non-negative |
| Eligibility.CheckPostulanteIntended | controllers/entrevistasController.js:35-72 | the check as meant: `has_reservation` names a reservation the applicant holds; `can_schedule` only for an applicant with no reservation in an allowed stage |
| Eligibility.CheckPostulanteIntendedOutcome | controllers/entrevistasController.js:35-79 | for the one applicant with the document, any reservation they hold, however many, is reported before the stage test; without one, `can_schedule` iff the stage is allowed, and a rejection naming the stage otherwise |
| Eligibility.AgreeWithOneBookingEach | controllers/entrevistasController.js:35-57 | while nobody holds two reservations, the check as written and as meant answer alike |
| Eligibility.ReservationsOfAfterBooking | controllers/entrevistasController.js:136-171 | a booking adds exactly its row to the applicant's reservations and changes no document number |
| Eligibility.DoubleBookingHidesReservation | controllers/entrevistasController.js:46-57 | two bookings by one applicant both succeed; afterwards the check as written answers `can_schedule` while the intended check reports a reservation |
| Availability.Position | controllers/entrevistasController.js:96 | the insertion point in a date-ordered list: everything before it is earlier, everything from it on is not |
| Availability.Insert | controllers/entrevistasController.js:96 | inserting into a date-ordered list keeps it ordered, lengthens it by one, holds exactly the old entries and the new one, and keeps ids distinct |
| Availability.InsertAddsOne | controllers/entrevistasController.js:96 | inserting adds exactly the new entry: every entry keeps its number of occurrences |
| Availability.AvailableDays | controllers/entrevistasController.js:85-110 | the listing is in ascending date order, lists each day at most once with its stored record, and lists exactly the days dated today or later that are 'Activo' with a free slot |
| Downloads.Located | controllers/registroController.js:313-317 | the offered file name is the object path's last segment, free of '/' |
| Downloads.CvObjectPath | controllers/registroController.js:281-287 | a CV path keeps its 'hojas-vida/' prefix; a doubled prefix loses one copy, anything else stays as requested |
| Downloads.DocsObjectPath | controllers/registroController.js:288-291 | a document path loses its 'documentos/' prefix and nothing else |
| Downloads.ResolveDownload | controllers/registroController.js:262-323 | 400 iff the path is empty or under neither prefix; otherwise the bucket named by the prefix, the object path as above, and the last segment as file name |
| Downloads.PrefixedOnce | controllers/registroController.js:281-287 | a path without the prefix, prefixed once, starts with it but not with the doubled prefix |
| Downloads.PrefixedTwice | controllers/registroController.js:281-287 | a path prefixed twice starts with the doubled prefix |
| Downloads.DoubledPrefixSameObject | controllers/registroController.js:281-287 | a CV requested with the prefix once or twice resolves to the same download |
| Downloads.TripledPrefixKeepsTwo | controllers/registroController.js:283-287 | for every rest of the path, a path with the prefix three times keeps it twice: only one copy is dropped |
| Downloads.DocumentNameRoundTrip | controllers/registroController.js:288-316 | a document stored under a plain name resolves to that name as both object path and file name |
| Uploads.AsListNormalises | controllers/registroController.js:515-517 | normalising a field to a list is idempotent and turns a scalar into a one-element list |
| Uploads.Missing | controllers/registroController.js:559 | the filtered list keeps exactly the mandatory types not present |
| Uploads.MandatoryGaps | controllers/registroController.js:545-565 | the missing mandatory types, in the fixed order; empty iff both 'hoja_vida' and 'antecedentes_judiciales' are on file or uploaded |
| Uploads.DefaultsAreMinimal | controllers/registroController.js:572-573 | only an empty beneficiary id becomes null; a falsy category becomes exactly 'principal' and a truthy one is kept, so a category always ends up non-empty |
| Uploads.Items | controllers/registroController.js:569-573 | the loop over the files yields one item per file, in order, each with the type at its position, the beneficiary with an empty id read as null, and the category with 'principal' for a falsy one |
| Uploads.ValidateUpload | controllers/registroController.js:495-573 | each failure iff its cause, in the handler's order (missing fields, non-numeric id, unequal list lengths, unknown application, missing mandatory types listed); a success yields one item per file with its type, its beneficiary with the empty-id default, and its category with the 'principal' default |

## Left out

- E-mail confirmation on booking: the send is taken to succeed. A failed send makes the handler answer 500 after the reservation, the slot decrement and the stage update are already written; that outcome is not modelled.
- Storage download and upload, and the inserts of uploaded documents: only the path and form checks that come before them are modelled.
- Randomness and clocks: the four ticket bytes, the creation timestamp and today's Colombian date are parameters. `utils/timeUtils.js` is not part of this model.
- `parseInt`: its result is a parameter of `Uploads.ValidateUpload` (`None` for NaN).
- Interleaving of concurrent requests: each handler runs as one atomic step. The race between the availability check and the slot decrement is not represented.
- Store write errors after the primary write: the slot decrement or increment and the stage update are taken to succeed, as the handlers only log their failures.
- Read-only admin and statistics handlers (`getAllInterviewDaysAdmin`, `getInterviewDayDetails` and the statistics in the registration controller) compute nothing the core depends on.
- Ids arriving as strings: the `!==` ownership comparison in cancel is modelled on integers, so a string id that equals the owner's number is not treated as a mismatch.
- The database default for `estado_asistencia` lies in the schema, not in the handlers; a fresh reservation's attendance is `None`.
- Deleting a day assumes the reservation rows cascade with the day, as the handler's reply states.
- Interviews.Reserve: requires the store's serial counters to be ahead of every id in use, as a serial column guarantees; a reused reservation id is not modelled.
- Interviews.CreateDay: requires the same of the serial counters, for the same reason; a reused day id is not modelled.
- Invariants.Run: bounds free slots by `0 <= available <= total` only for days with non-negative capacity, because creating a day accepts a negative capacity.
- Downloads.ResolveDownload: stops at the bucket, path and file name; the 404 for an object missing from storage and the 500 for an exception are not modelled.
- Availability.AvailableDays: dates are day numbers, which order like the ISO `YYYY-MM-DD` strings the store compares.

## Findings

| source | as written | input that shows it | evidently intended | confidence | as-written member | corrected member |
|---|---|---|---|---|---|---|
| controllers/entrevistasController.js:46-57 | the reservation lookup uses `.single()`, whose error for several rows has the same code as for none, and the handler treats that code as "no reservation" | an applicant in stage 'Postulado' books an active day with two free slots twice (booking does not check for an earlier reservation); the check then answers `can_schedule` | any reservation the applicant holds is reported as `has_reservation` | not executed | Interviews.CheckPostulante, Eligibility.DoubleBookingHidesReservation | Eligibility.CheckPostulanteIntended |
