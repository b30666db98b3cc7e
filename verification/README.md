# Slot reservation engine of booking-expert, in Dafny

This project models the part of the booking-expert backend that reserves an expert's time
slot and keeps two separately stored facts in step: the `isBooked` flag of the slot, which
lives inside the expert document, and the bookings in the booking collection.

The model covers these parts of the backend:

- `POST /api/experts/:id/book`: the validators, the expert and slot lookup, the conflict
  check, the new booking, the flag write and the `slotBooked` event. It also covers the
  page, skip and page-count arithmetic of `GET /api/experts`.
- `GET /api/bookings?email=`: the listing of a requester's bookings, newest first.
- `PATCH /api/bookings/:id/status`: the status update, which frees the slot on `Completed`.
- `DELETE /api/bookings/:id`: the deletion, which frees the slot.
- `sync.js`: the reconciliation pass, which clears flags that no booking backs.
- The Booking and Expert schemas: their required fields and their defaults.

How the model is built:

- Handlers are pure functions over a store `Db` (the experts and the bookings). Each writing
  handler returns `Result<Effect<T>>`, which is either the error the route answers or its
  effect. The read-only routes write nothing: `ListBookings` returns
  `Result` of the listing, and `Paginate` returns the paging fields.
- An effect lists the database writes in the order the route awaits them, the events it
  emits, and the reply. `Store.Commit` applies the writes one after another. Applying only
  a prefix of them models a failure between two awaited writes.
- The id a new document receives (`newId`) and the clock reading (`now`) come from the
  environment, so they are parameters.
- Socket.IO broadcasts are kept as event values in the effect.
- Route ids are cast as Mongoose casts them. A value that is not 24 hex digits fails the
  cast, and the route answers 500.

The intended cross-store invariant is `Consistency.Consistent`. It has three parts:

- A slot is flagged exactly when a Pending or Confirmed booking refers to it.
- No slot is held by two such bookings.
- Slot ids are unique within an expert, because the routes act on the first slot with a
  given id.

Booking keeps the invariant. The status update and the deletion as written break it in
three ways, listed under "## Findings". The corrected status update and deletion
(`Consistency.SetStatusGuarded`, `Consistency.DeleteGuarded`) keep it. With them, every
serial sequence of book, status and delete requests keeps the invariant
(`Consistency.ServeAllKeepsConsistent`).

The reconciliation pass as written counts a booking of any status as backing a flag. So
it does not repair a slot that stays flagged with only a Completed booking behind it
(`Consistency.ReconcileKeepsCompletedOnlyFlag`). The same pass asking for an active
booking (`Sync.Reconcile(ActiveOnly, ·)`) removes every flag that no active booking backs.
After an interrupted completion or deletion it restores the whole invariant (`Consistency.InterruptedReleaseRepaired`). Neither pass can
repair a booking interrupted between its two writes. That leaves an active booking on an
unflagged slot, and the pass only clears flags (`Consistency.InterruptedBookingNotRepaired`).

Where the invariant asks more than the code does, the model follows the code:

- The invariant needs a booking and its flag write to happen together. The code awaits two
  separate writes, and the model applies them one after the other, so a failure between
  them is a prefix of the writes.
- The reconciler checks only that some booking of the slot exists, whatever its status.
  That is weaker than the invariant, which asks for an active booking. The model keeps the
  check as written and proves what it does and does not repair.
- Deletion frees the slot whatever the status of the deleted booking. Together with the
  invariant this is a defect (see "## Findings").

## Model

| member | source | states |
|---|---|---|
| Text.Trim | backend/routes/expertRoutes.js:66 | `trim()` leaves the empty string exactly when the text is all ECMAScript white space, so `!userName.trim()` rejects blank names |
| Text.TrimStart | backend/routes/expertRoutes.js:11-12 | the leading white space `parseInt` skips: the result is a suffix, the dropped prefix is blank, and the result does not start with white space |
| Text.EmailPatternIffShape | backend/routes/expertRoutes.js:71-72 | `/^[^\s@]+@[^\s@]+\.[^\s@]+$/` accepts exactly the strings with no white space, exactly one `@` not in front, and a `.` strictly inside the part after the `@` |
| Text.StripNonDigits | backend/routes/expertRoutes.js:77 | `replace(/\D/g, '')` keeps only digits and keeps every digit as often as it occurs; it returns a digit string unchanged and `''` when there is no digit (the order comes from StripNonDigitsAppend) |
| Text.StripNonDigitsAppend | backend/routes/expertRoutes.js:77 | removing non-digits distributes over concatenation, so the digit count of a phone number is the sum over its parts |
| Text.CastCanonical | backend/routes/expertRoutes.js:82-87 | a route id of 24 hex digits lowercases to the canonical ObjectId text; lowercasing is idempotent, so two spellings of one id name the same document |
| Text.DigitPrefix | backend/routes/expertRoutes.js:11-12 | the digits `parseInt` reads: the longest prefix of digits of the radix |
| Text.ParseUnsigned | backend/routes/expertRoutes.js:11-12 | after an optional `0x`/`0X` prefix (radix 16, otherwise 10) the value is that of the longest digit prefix, and NaN exactly when no digit of the radix follows |
| Text.ParseSigned | backend/routes/expertRoutes.js:11-12 | an optional `+` or `-` sign: NaN exactly when the numeral after it is NaN; otherwise the magnitude is the numeral's value and the result is negative only after `-` |
| Text.ParseInt | backend/routes/expertRoutes.js:11-12 | an absent query parameter and blank text parse to NaN |
| Text.ParseIntSkipsSpace | backend/routes/expertRoutes.js:11-12 | white space before the numeral changes nothing `parseInt` reads |
| Text.ParseIntHex | backend/routes/expertRoutes.js:11-12 | `"0x1A"` reads as 26 and `"0x"` as NaN |
| Text.ParseIntSigned | backend/routes/expertRoutes.js:11-12 | `" -12abc"` reads as -12 |
| Text.ParseIntSigns | backend/routes/expertRoutes.js:11-12 | `"-0"` reads as 0, and `"+-5"` as NaN |
| Text.ParseIntStops | backend/routes/expertRoutes.js:11-12 | `""` reads as NaN and `"1e3"` as 1 |
| Text.ParseIntDecimal | backend/routes/expertRoutes.js:11-12 | `parseInt` reads every decimal numeral back as the number it denotes |
| Schema.NewTimeSlot | backend/models/Expert.js:3-8 | a slot created without a flag is free (`isBooked` defaults to false) |
| Schema.ParseStatus | backend/routes/bookingRoutes.js:36-40 | a status is accepted exactly when it is one of `Pending`, `Confirmed` and `Completed`, and it parses back to the status it names |
| Schema.NewBooking | backend/models/Booking.js:3-16 | a new booking starts Pending, absent notes default to `''`, and the given fields are stored unchanged |
| Store.SetFlag | backend/routes/expertRoutes.js:116 | assigning `timeSlots[i].isBooked` changes that flag and nothing else of the expert |
| Store.CommitSplit | backend/routes/expertRoutes.js:113-117 | awaited writes apply one after another: committing a prefix and then the rest equals committing all |
| Store.FindSlot | backend/routes/expertRoutes.js:91 | `findIndex` finds the first slot whose id equals the requested one; an absent slot id matches no slot |
| Store.SlotOfBooking | backend/routes/bookingRoutes.js:52-55 | the slot a booking refers to is the first slot of its expert with the booking's slot id, if the expert exists |
| Store.CastId | backend/routes/bookingRoutes.js:42 | a route id casts exactly when it is 24 hex digits, and names the document whose id is its lowercase form |
| ExpertRoutes.ValidateBooking | backend/routes/expertRoutes.js:66-84 | the four checks run in source order (name, e-mail, phone, route id), the first failing one decides the reason, and the request passes exactly when all hold |
| ExpertRoutes.ReserveSlot | backend/routes/expertRoutes.js:86-98 | 404 exactly when the expert is missing or has no slot with the id; 409 exactly when the first such slot is flagged; 500 on a duplicate new id; otherwise the free slot is reserved |
| ExpertRoutes.SaveAndFlag | backend/routes/expertRoutes.js:100-123 | the booking is saved first and then the slot is flagged; the booking copies the expert name, the slot's id, date and time, and the requester fields; no other flag changes; one `slotBooked` event |
| ExpertRoutes.Book | backend/routes/expertRoutes.js:61-130 | a validation failure answers 400 before any lookup and writes nothing; a request that passes every validation is answered by ReserveSlot for the cast id (404, 409, 500 on a duplicate id, or 200 with the reservation) |
| ExpertRoutes.BookCreatesValidBooking | backend/models/Booking.js:4-11 | when the expert record meets its schema, the booking the route creates meets every `required` of the Booking schema |
| ExpertRoutes.OrDefault | backend/routes/expertRoutes.js:11-12 | `parseInt(q) \|\| d` keeps a parsed non-zero number and falls back to `d` for NaN and 0 |
| ExpertRoutes.Paginate | backend/routes/expertRoutes.js:11-13 | page defaults to 1 and limit to 10 when missing, unparsable or 0; skip and pages then follow from page and limit |
| ExpertRoutes.PagingFor | backend/routes/expertRoutes.js:13-37 | skip is `(page - 1) * limit`; with a positive limit, pages is the least page count that holds every matching document |
| ExpertRoutes.PageCount | backend/routes/expertRoutes.js:37 | with a positive limit, `Math.ceil(total / limit)` is non-negative, holds `total` documents, and one page fewer would not |
| ExpertRoutes.CeilDivision | backend/routes/expertRoutes.js:37 | the real-number ceiling of `total / limit` is the least count of whole pages holding `total` documents |
| ExpertRoutes.PageOfIndex | backend/routes/expertRoutes.js:27-37 | with a positive limit, each document index below the total falls on exactly one page between 1 and the reported page count `PageCount(total, limit)`, page `index / limit + 1` |
| BookingRoutes.InsertNewest | backend/routes/bookingRoutes.js:22 | inserting one booking into the listing adds exactly that booking and keeps the others |
| BookingRoutes.InsertNewestSorted | backend/routes/bookingRoutes.js:22 | inserting into a listing sorted newest first keeps it sorted newest first |
| BookingRoutes.FindByEmail | backend/routes/bookingRoutes.js:22 | the listing holds exactly the bookings whose e-mail equals the query, each once, sorted by `createdAt` descending |
| BookingRoutes.ListBookings | backend/routes/bookingRoutes.js:9-29 | 400 exactly when the e-mail is missing or blank, and a different 400 exactly when it fails the pattern; otherwise the listing of FindByEmail |
| BookingRoutes.SetStatus | backend/routes/bookingRoutes.js:33-73 | 400 exactly for an unknown status, before any lookup; 500 on an id that does not cast; 404 on a missing booking; it succeeds exactly for a known status and an existing booking, even when the expert or slot is gone; the status is stored; only on Completed is the slot unflagged, with one `slotAvailable` event |
| BookingRoutes.Delete | backend/routes/bookingRoutes.js:76-111 | 500 on an id that does not cast; 404 on a missing booking; it succeeds exactly for an existing booking; the booking is removed and its slot unflagged, with a `slotAvailable` event, whatever its status |
| Sync.RepairSlots | backend/sync.js:12-22 | the inner loop changes flags only, and a slot stays flagged exactly when it was flagged and a booking backs it |
| Sync.SlotsNeedRepairIff | backend/sync.js:13-19 | the inner loop clears some flag exactly when some flagged slot has no booking behind it |
| Sync.RepairExpert | backend/sync.js:12-22 | the expert after its inner loop is repaired, and it is unchanged exactly when no flag needed clearing |
| Sync.Reconcile | backend/sync.js:7-26 | the pass leaves the bookings and the set of experts alone and repairs every expert |
| Sync.ReconcileIdempotent | backend/sync.js:7-26 | a second pass right after the first changes nothing |
| Sync.ReconcileLeavesNothingToSave | backend/sync.js:9-25 | run again right after a pass, the loop saves no expert |
| Sync.SyncPass | backend/sync.js:9-26 | the outer loop keeps the expert ids, saves at most every expert, and saves every one once `fixedAny` is set |
| Sync.SyncPassStore | backend/sync.js:11-26 | after the loop every listed expert is repaired and every other expert is as before |
| Sync.PassSaves | backend/sync.js:9-25 | the loop saves nothing before the first expert needing a repair and, since `fixedAny` is never reset, every expert from there on |
| Sync.SaveOrder | backend/sync.js:9-25 | the saved experts are a suffix of the loop order, and the whole order once `fixedAny` is already set |
| Sync.SkippedNeedNoRepair | backend/sync.js:9-25 | every expert the loop passes before its first save needed no repair |
| Sync.FirstSavedNeedsRepair | backend/sync.js:9-25 | when `fixedAny` starts false, the first expert saved is one that needed a repair |
| Sync.PassIsReconcile | backend/sync.js:8-26 | the loop over every expert, in any order, leaves the experts store the pass describes |
| Sync.RunSync | backend/sync.js:8-26 | the whole run over `Expert.find()` leaves the store as Reconcile says and saves what SaveOrder says |
| Consistency.ReserveKeepsConsistent | backend/routes/expertRoutes.js:100-117 | saving a fresh Pending booking and flagging the free slot it names keeps the invariant |
| Consistency.ReservedSlotConflicts | backend/routes/expertRoutes.js:90-98 | once a slot is reserved, the store part answers 409 to any later request for the same slot id |
| Consistency.BookKeepsConsistent | backend/routes/expertRoutes.js:86-117 | a successful booking keeps the invariant |
| Consistency.SecondBookingConflicts | backend/routes/expertRoutes.js:96-98 | right after a successful booking, a valid request for the same slot answers 409 |
| Consistency.ReopenBreaksConsistency | backend/routes/bookingRoutes.js:47-51 | reopening a Completed booking leaves the store inconsistent |
| Consistency.RecompletionFreesHeldSlot | backend/routes/bookingRoutes.js:51-57 | completing a Completed booking again unflags its slot while another active booking still holds it, so occupancy breaks |
| Consistency.DeleteCompletedFreesHeldSlot | backend/routes/bookingRoutes.js:88-96 | deleting a Completed booking unflags its slot while another active booking still holds it, so occupancy breaks |
| Consistency.SetStatusGuarded | backend/routes/bookingRoutes.js:33-73 | as SetStatus for an active booking; it succeeds exactly for a known status and an existing booking that is not a Completed one being reopened, which alone answers the `CompletedIsFinal` 400; completing a Completed booking again changes nothing |
| Consistency.DeleteGuarded | backend/routes/bookingRoutes.js:88-96 | as Delete for an active booking, and it succeeds exactly for an existing booking; a Completed booking is removed without touching any slot or emitting an event |
| Consistency.SetStatusGuardedKeepsConsistent | backend/routes/bookingRoutes.js:47-57 | the corrected status update keeps the invariant |
| Consistency.DeleteGuardedKeepsConsistent | backend/routes/bookingRoutes.js:88-96 | the corrected deletion keeps the invariant |
| Consistency.ServeAllKeepsConsistent | backend/routes/bookingRoutes.js:33-111 | every serial sequence of Book, corrected status (SetStatusGuarded) and corrected delete (DeleteGuarded) requests keeps the invariant |
| Consistency.FreshStoreConsistent | backend/models/Expert.js:7 | a store with no bookings whose slots are all as NewTimeSlot creates them, with unique ids, is consistent |
| Consistency.ReconcileKeepsCompletedOnlyFlag | backend/sync.js:15-16 | the existence check keeps a flag that only a Completed booking backs, so the invariant stays broken after the pass |
| Consistency.ReconcileActiveRestores | backend/sync.js:13-19 | with the active-booking check every remaining flag has an active booking, and the occupancy part of the invariant holds whenever every active booking's slot was flagged |
| Consistency.ReconcileActiveRestoresConsistent | backend/sync.js:13-22 | when every active booking's slot is flagged, no slot has two active bookings and slot ids are unique, the active-booking pass leaves the whole invariant |
| Consistency.UnflaggedHeldSlotStays | backend/sync.js:13-19 | neither check flags a slot, so an active booking on an unflagged slot stays out of step |
| Consistency.InterruptedBookingNotRepaired | backend/routes/expertRoutes.js:113-117 | a booking interrupted after its save leaves an active booking on an unflagged slot that no pass repairs |
| Consistency.ReconcileKeepsRest | backend/sync.js:13-22 | the pass changes flags only, so single holders and unique slot ids survive it, and occupancy after it gives the whole invariant |
| Consistency.InterruptedReleaseRepaired | backend/sync.js:13-19 | a release interrupted after the booking write leaves stale flags only, and the active-booking pass restores the whole invariant |
| Consistency.InterruptedCompletionRepaired | backend/routes/bookingRoutes.js:47-57 | after a corrected completion interrupted after its first write, the active-booking pass restores the whole invariant |
| Consistency.InterruptedDeletionRepaired | backend/routes/bookingRoutes.js:88-96 | after a corrected deletion interrupted after its first write, the active-booking pass restores the whole invariant |

## Left out

- Concurrency. Requests are handled one at a time. The check-then-act window between
  reading a slot's flag and writing the expert back, which lets two concurrent bookings of
  one slot both succeed, is not modelled.
- ExpertRoutes.ReserveSlot: does not model a save-time schema rejection (answered 500) when the stored
  expert record itself violates the Expert schema, for example an empty name. For
  schema-valid experts, ExpertRoutes.BookCreatesValidBooking shows that no rejection can
  occur.
- BookingRoutes.SetStatus: does not model a save-time schema rejection (answered 500) of `booking.save()` or
  `expert.save()` when the stored record violates its schema; it succeeds for every existing booking.
- BookingRoutes.Delete: does not model a save-time schema rejection (answered 500) of `expert.save()` when
  the stored expert violates its schema; it succeeds for every existing booking.
- Mongoose persistence details: the `updatedAt` timestamp, whole-document saves, and
  change tracking. `createdAt` is the `now` parameter.
- Socket.IO transport and the `if (io)` guard. The events are recorded in the effect
  whether or not a server is attached.
- The rest of `GET /api/experts`: the `$regex` name search, the category filter, the
  rating sort and the query itself. The matching-document count is the parameter `total`.
- `GET /api/experts/:id`, `server.js`, `seed.js`, `debug.js` and the frontend. Like the bookings
  page, the corrected update forbids reopening a Completed booking; it still allows the
  other changes the route accepts (for example Confirmed to Pending), and the page is not
  modelled.
- Request bodies and queries that are not strings (numbers, arrays, objects). These throw
  or are coerced in JavaScript and are not modelled.
- Store.CastId: accepts 24 hex digits only. Mongoose would also cast a 12-character string.
- The number `parseInt` returns is an exact integer. The loss of precision above 2^53
  and the value `Infinity` are not modelled.
- MongoDB's treatment of a negative `skip` or `limit`.
- White space and case are taken per character. UTF-16 surrogate pairs are not modelled.
- Sync.RunSync: every `expert.save()` of the pass succeeds. In `sync.js` a rejected save
  (for example of a schema-invalid expert, which is saved once `fixedAny` is set) ends the
  callback, leaves the remaining experts unrepaired and skips `mongoose.disconnect()`;
  that is not modelled.
- The connection set-up, logging and disconnect of `sync.js`. The reconciliation pass runs
  with no other writer active.
- Response bodies and messages. Each kind of `Results.Error` stands for one status code (400, 404, 409 or 500), and `Ok` for the route's success code.

## Findings

| source | as written | input that shows it | evidently intended | confidence | as-written member | corrected member |
|---|---|---|---|---|---|---|
| backend/routes/bookingRoutes.js:47-51 | a status update to Pending or Confirmed never touches the slot, even when the booking was Completed and its slot already freed | a Completed booking whose slot is free, set back to `Pending`: an active booking on a free slot (or, if the slot was rebooked, two active bookings on one slot) | a Completed booking is final; the bookings page offers no way to reopen it | not executed | Consistency.ReopenBreaksConsistency | Consistency.SetStatusGuarded |
| backend/routes/bookingRoutes.js:51-56 | setting `Completed` frees the slot whatever the previous status | a Completed booking completed again after its slot was rebooked by another requester: the new booking's slot is shown free | completing a booking that no longer holds its slot changes no slot | not executed | Consistency.RecompletionFreesHeldSlot | Consistency.SetStatusGuarded |
| backend/routes/bookingRoutes.js:90-96 | deletion frees the slot whatever the status; the comment says it should only when the booking is deleted before it was completed | deleting a Completed booking (the only deletion the bookings page offers) after its slot was rebooked: the new booking's slot is shown free and can be booked twice | free the slot only when the deleted booking was still Pending or Confirmed | not executed | Consistency.DeleteCompletedFreesHeldSlot | Consistency.DeleteGuarded |

The corrected members are used by `Consistency.Serve`. The properties proved about them are
`Consistency.SetStatusGuardedKeepsConsistent`, `Consistency.DeleteGuardedKeepsConsistent`
and `Consistency.ServeAllKeepsConsistent`.
