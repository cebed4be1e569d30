# Doctors portal server: availability, booking uniqueness and access control

This project models the decision logic of the doctors-portal booking server,
an Express/MongoDB backend. The logic has four parts:

- **Availability** (`availability.dfy`, module `Availability`). GET /appointment-options?date= fetches every appointment option and the bookings of one date. A `forEach` loop then overwrites each option's `slots` with the slots that no booking of that treatment took. The model is the method `GetAppointmentOptions`: it loops over a fresh array of the options and is proved against the specification function `AvailableOptions`. Lemmas about that function cover soundness, completeness, order, duplicates, which bookings matter, and the example scenarios.
- **Availability by aggregation** (`aggregation.dfy`, module `Aggregation`). GET /v2/appointment-options gets the same answer from one `$lookup` / `$map` / `$setDifference` pipeline. `$setDifference` returns a set, so `IsAggregationResult` describes every response it may produce, and `AggregateOptions` is one of them. The lemmas prove three things. v2 and v1 always agree as sets. When an option offers each slot once, every v2 answer is a reordering of v1's and v1's answer is itself a possible v2 answer. A repeated slot shows that the two differ as sequences.
- **Booking writer** (`booking_store.dfy`, module `BookingWriter`). POST /bookings refuses a booking when one already exists with the same appointment date, email and treatment. It answers `acknowledged: false` with the message `Already have a booking for <treatment> in <date>.`. Otherwise it appends the booking. `BookingStore` holds the collection as a `seq<Booking>`, and its `Insert` method is the handler. `Admit` and `AdmitAll` describe single requests and sequential runs of requests. "No two bookings share a key" is proved to hold across sequential requests.
- **Access control** (`token_gate.dfy` and `authorization.dfy`, modules `TokenGate` and `Authorization`):
  - `verifyJWT` as `VerifyJwt`, including the `split(" ")[1]` token extraction. The token library is a parameter, a function from token to optional claims.
  - `verifyAdmin` as `VerifyAdmin`.
  - The chained admin routes as `AdminRoute`.
  - The email guard of GET /bookings as `ListBookings`.
  - The `isAdmin` report as `IsAdmin`.

`records.dfy` (module `Records`) holds the documents (`AppointmentOption`, `Booking`, `User`, `Claims`). It also holds the outcome of a guard, `Decision`: proceed, reject with a status and a message, or throw.

Each database collection is a sequence in its natural order. A query is a filter over that sequence. `findOne` returns the first match.

Three behaviours of the code are worth stating outright:

- **Unknown user at the admin gate.** For an unknown email, `findOne` returns `null` and `verifyAdmin` reads `role` from it, so the handler throws rather than answering 403 (index.js:54-56). `VerifyAdmin` returns `Unhandled` for that case, and `AdminGateMatchesReport` shows that this is the only case where the gate and `isAdmin` differ in kind.
- **Header format.** `verifyJWT` takes the second space-separated field of the header as the token, whatever the first field is (index.js:26). An empty header is falsy, so it gets 401 like a missing one (index.js:22). A header without a space yields an `undefined` token, and `"Bearer "` yields an empty one. The token library refuses both before checking a signature, so both get 403.
- **v1 versus v2.** The two availability handlers agree as sets of slots (index.js:85-87 against index.js:138). They agree as reorderings when an option's slots are distinct. With a repeated slot they differ as sequences.

## Model

| member | source | states |
|---|---|---|
| `TokenGate.Split` | index.js:26 | `split(" ")` yields at least one field, and no field contains a space |
| `TokenGate.JoinSplit` | index.js:26 | joining the fields of `split(" ")` with single spaces gives back the header |
| `TokenGate.SplitJoin` | index.js:26 | on space-free fields, `split(" ")` is the inverse of joining with spaces |
| `TokenGate.SplitAfterField` | index.js:26 | a space-free piece followed by a space splits off as the first field |
| `TokenGate.SplitNoSpace` | index.js:26 | a header without a space splits into itself alone |
| `TokenGate.TokenField` | index.js:26 | `split(" ")[1]` is defined exactly when the header contains a space |
| `TokenGate.VerifyJwt` | index.js:19-38 | 401 "Unauthorized Access" exactly for a missing or empty header; proceeds exactly when the second field exists, is non-empty and the library accepts it, carrying the decoded claims; every other case is 403 "Access Forbidden"; it never throws |
| `TokenGate.BearerHeader` | index.js:26-36 | a header `<scheme> <token>` proceeds with the token's claims when the token is non-empty and the library accepts it, and is 403 otherwise |
| `TokenGate.HeaderWithoutToken` | index.js:26-31 | a non-empty header without a space is 403, whatever the library would say |
| `Authorization.FindUser` | index.js:54 | `findOne({ email })` returns the first user with that email, or `null` exactly when there is none |
| `Authorization.VerifyAdmin` | index.js:51-62 | proceeds exactly when the first user with the decoded email has role "admin"; any other existing user gets 403 "Access Forbidden"; an unknown email throws |
| `Authorization.IsAdmin` | index.js:257-263 | `isAdmin` is true exactly when the first user with that email exists and has role "admin" |
| `Authorization.IsAdminWhenEmailsUnique` | index.js:262 | with unique emails, `isAdmin` is true exactly when some user with that email has role "admin" |
| `Authorization.AdminGateMatchesReport` | index.js:51-62 | the admin gate lets a request through exactly when `isAdmin` would be true; among non-admins only unknown users throw |
| `Authorization.AdminRoute` | index.js:267 | on a route guarded by `verifyJWT, verifyAdmin`, a verified token's outcome is exactly `verifyAdmin`'s on its claims; so a request proceeds only with a verified token whose email is an admin's; a token failure passes through unchanged |
| `Authorization.NonAdminForbidden` | index.js:54-58 | a valid token of a stored user whose role is not "admin" gets 403 on the admin routes |
| `Authorization.BookingsOf` | index.js:177-178 | `bookings.find({ email })` holds exactly the bookings with that email, each as many times as the collection holds it |
| `Authorization.BookingsOfConcat` | index.js:177-178 | the query distributes over concatenation of the collection, so the bookings come back in collection order |
| `Authorization.ListBookings` | index.js:171-180 | GET /bookings proceeds exactly when the query email equals the decoded email; the body is the `find({ email })` result, holding each of that identity's bookings as often as the collection does; otherwise 403 "Access Forbidden" |
| `Availability.BookingsOn` | index.js:72-73 | the date query returns exactly the bookings with that `appointmentDate` |
| `Availability.BookedSlots` | index.js:77-82 | a slot is booked for a treatment exactly when some booking of the date with that treatment has it |
| `Availability.WithRemainingSlots` | index.js:77-90 | one pass of the `forEach` body: name and price kept, and a slot remains exactly when the option offers it and no booking of the date for that treatment took it |
| `Availability.AvailableOptions` | index.js:65-94 | the v1 response: the same number of options with names and prices kept, and a slot remains exactly when offered and not booked for that treatment and date; every availability lemma is about it |
| `Availability.RemainingSlots` | index.js:85-87 | a slot remains exactly when the option offers it and it is not booked; there are never more remaining slots than offered |
| `Availability.GetAppointmentOptions` | index.js:65-94 | the handler's answer has the same options in the same order, with `name` and `price` unchanged; a slot remains exactly when the option offers it and no booking of that treatment on the date took it; the answer equals `AvailableOptions` |
| `Availability.BookedIff` | index.js:72-82 | the date query followed by the treatment filter finds a slot exactly when a booking of that treatment and date holds it |
| `Availability.AvailableOptionsAt` | index.js:75-90 | for each option: same name and price, and a slot remains exactly when it is offered and was not booked for that treatment and date |
| `Availability.RemainingSlotsConcat` | index.js:85-87 | the remaining slots of a concatenation are the concatenation of the remaining slots, so the original order is kept |
| `Availability.RemainingSlotsCount` | index.js:85-87 | a slot that was not booked is kept as many times as it is offered; a booked slot is not kept at all |
| `Availability.RemainingSlotsSubsequence` | index.js:85-87 | the remaining slots are a subsequence of the offered slots |
| `Availability.UnofferedBookingIgnored` | index.js:85-87 | a booked value that the option does not offer changes nothing |
| `Availability.RemainingSlotsByMembership` | index.js:86 | only which values are booked matters, not their order or repetition |
| `Availability.RemainingSlotsNothingBooked` | index.js:85-87 | with no booked slots every offered slot remains |
| `Availability.OtherBookingsIrrelevant` | index.js:72-82 | bookings of other treatments or other dates have no effect on an option |
| `Availability.UnmatchedDateKeepsAllSlots` | index.js:72-73 | a date that no booking carries (such as one written in another format) leaves every option with all of its slots |
| `Availability.BracesScenario` | index.js:65-94 | a Braces booking of 10am on 2023-01-01 leaves 9am and 11am on that date and all three slots on 2023-01-02 |
| `Aggregation.LookupBookedSlots` | index.js:103-131 | the `$lookup` and `$map` stages find a slot exactly when a booking of the option's treatment on the date has it |
| `Aggregation.IsSetDifference` | index.js:138 | defines what `$setDifference` may return: each value of the slots that is not booked, exactly once, in any order |
| `Aggregation.IsAggregationResult` | index.js:97-145 | defines the v2 responses the pipeline may give: options in order, `name` and `price` kept, each option's `slots` a set difference of its slots and the slots booked for it on the date |
| `Aggregation.SetDifference` | index.js:138 | the result holds each value of the slots that is not booked, exactly once |
| `Aggregation.AggregateOptions` | index.js:97-145 | the pipeline's answer keeps the options in order with name and price, and gives each option a duplicate-free set difference of its slots and its booked slots |
| `Aggregation.LookupMatchesDateThenTreatment` | index.js:100-131 | the v2 join (treatment, then date) yields the same booked slots, in order, as v1's date query followed by its treatment filter |
| `Aggregation.AggregationAgreesWithV1AsSets` | index.js:133-141 | every answer v2 may give has v1's options, names and prices, and the same set of slots per option |
| `Aggregation.RemainingSlotsKeepsNoDuplicates` | index.js:85-87 | v1's filter keeps a duplicate-free slot list duplicate-free |
| `Aggregation.V1IsAggregationResultWhenDistinct` | index.js:137-139 | when each option's slots are distinct, v1's answer is one that the aggregation may give |
| `Aggregation.AggregationPermutesV1WhenDistinct` | index.js:137-139 | when each option's slots are distinct, every v2 answer's slots are a reordering of v1's |
| `Aggregation.RepeatedSlotCollapses` | index.js:138 | a slot offered twice stays twice in v1 but appears once in every v2 answer |
| `BookingWriter.SameKey` | index.js:193-197 | defines the duplicate query: same `appointmentDate`, `email` and `treatment` |
| `BookingWriter.DuplicateMessage` | index.js:202 | defines the refusal message `Already have a booking for <treatment> in <date>.` |
| `BookingWriter.Matching` | index.js:193-198 | the duplicate query returns exactly the bookings with the candidate's date, email and treatment |
| `BookingWriter.Admit` | index.js:190-207 | a candidate whose key exists is refused with `acknowledged: false` and the message naming its treatment and date, with the bookings unchanged; otherwise the bookings grow by exactly the candidate |
| `BookingWriter.AdmitPreservesKeysUnique` | index.js:198-205 | one request keeps "no two bookings share date, email and treatment" |
| `BookingWriter.AdmitAll` | index.js:190-207 | a run of requests handled one after another; the collection grows by at most one booking per request and never shrinks |
| `BookingWriter.AdmitAllPreservesKeysUnique` | index.js:190-207 | any run of sequential requests keeps the keys unique |
| `BookingWriter.AdmitAllExtends` | index.js:205 | sequential requests keep every earlier booking in place and only add requested ones |
| `BookingWriter.AdmitAllCoversRequests` | index.js:193-205 | after sequential requests, each requested key is held by some booking |
| `BookingWriter.BookingStore.Insert` | index.js:190-207 | the handler on the store: a duplicate key leaves the store unchanged and answers `acknowledged: false` with the message; otherwise the store becomes old + [candidate]; unique keys stay unique |
| `BookingWriter.DuplicateRequestRefused` | index.js:193-204 | a second request with the same date, email and treatment is refused, and at most the first one is written |

## Left out

- Express routing, CORS and JSON middleware, the `/` route and `app.listen`: HTTP plumbing.
- MongoDB itself is not modelled: the client, the connection, cursors, `_id` values and `ObjectId` parsing. This also leaves out GET /bookings/:id, a single lookup by id.
- `insertedId` is modelled as the new booking's position in the collection, standing in for the generated `ObjectId`.
- The internals of `$lookup` and `$project` are not modelled; only the slots they compute are. The order `$setDifference` returns is not specified, so v2 is stated as the predicate `IsAggregationResult`. `AggregateOptions` fixes one admissible order: the last occurrence of each value.
- In v1, option objects are values in an array, and reassigning `appointmentOption.slots` becomes replacing the array element. Aliasing of those objects is not modelled.
- JWT signing, verification and the "2 days" expiry are not modelled. They are a foreign library plus wall-clock time, so verification is the parameter `verify`. For the same reason GET /jwt, which signs a token for a known email, is left out.
- Stripe payment intents and the `price * 100` conversion are left out: a foreign API on floating-point numbers. `price` is an integer that is only carried through unchanged.
- The race between `find` and `insertOne` in POST /bookings is left out. Every lemma assumes sequential requests.
- The CRUD pass-throughs are left out: GET and POST /users, the upsert in PUT /users/admin/:id, GET, POST and DELETE /doctors, and GET /specialties. Their guards are modelled by `AdminRoute`.
- Request bodies are assumed to carry `appointmentDate`, `email`, `treatment` and `slot` as strings. Other body fields are not modelled. A missing `date` query parameter (`undefined` in the queries) is not modelled either.
- Storage failures, unhandled rejections and `run().catch(console.dir)` are left out, as is the environment configuration.
