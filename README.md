# Studio booking ledger in Dafny

This project models the core of a small booking backend for a beauty studio. The backend is
an Express server over a Prisma database. The model covers five groups of routes:

- **Appointments**: the fixed weekly slot table, the public availability query, public and
  staff bookings, status changes, and the staff list.
- **Testimonials**: the unguessable link, link generation, the client's submission, the
  public list and form, and deletion.
- **Services**: the active-only list and detail, create, update, activate, and the cascading
  delete.
- **Clients**: the paginated and searched list, detail, create and update.
- **Settings**: the latest-row lookup, the public projection, and the merging upsert.

Every database table is a map from id to record, held as a field of one `Store` class
(`store.dfy`). Every route handler in the list above is a method or function of that class and runs as one
atomic step. One counter, `nextId`, hands out ids and doubles as the creation clock, so a row
created later has a larger id and a larger `createdAt`. `Store.Valid()` is the invariant every
handler keeps (stated over the tables' values as `Store.Consistent`):

- every row sits under its own id, below `nextId`;
- every appointment points at an existing client and service;
- every testimonial points at an existing appointment;
- no two testimonials share an appointment or a link.

The pure rules of each route file live in their own module:

| module | file | holds |
|---|---|---|
| `Appointments` | `appointments.dfy` | slot table, availability, list filter and order |
| `Testimonials` | `testimonials.dfy` | hex links, submission schema, published list |
| `Services` | `services.dfy` | schema, active list, detail |
| `Clients` | `clients.dfy` | search, page arithmetic, detail |
| `SettingsRules` | `settings.dfy` | latest row, public view, merge, initial row |

They rest on three shared modules:

- `Seqs`: the database's `where`, `orderBy`, `skip`/`take` and `findFirst`, and the listing
  of a table in id order.
- `Text`: string order and the case-insensitive `contains`.
- `Domain`: the record types and the error kinds.

A handler's answer is a `Result`. `Ok` is the 2xx answer, and `Err` carries one of these
errors:

| error | status | meaning |
|---|---|---|
| `InvalidInput` | 400 | the request fails its zod schema |
| `InvalidService` | 400 | the service is missing or inactive |
| `SlotTaken` | 409 | the (service, date, time) slot is already booked |
| `NotFound` | 404 | the handler's own lookup found nothing |
| `AlreadySubmitted` | 400 | the testimonial is no longer pending |
| `StoreFault` | 500 | the database refused the write |

A database refusal reaches the error handler as a 500. It happens on an update or delete of a
missing row, on a foreign-key violation, and on a uniqueness violation.

Some source behaviour goes beyond the plain reading of the route comments; the model follows
the code:

- A service update keeps an omitted `description` as well as an omitted `active`. Prisma ignores
  `undefined` fields in update data.
- A settings PUT replaces a column whenever that field is supplied, even as `{}`. An empty
  object is truthy in JavaScript, so only omitted fields keep their old value.
- The staff appointment list filters on a free status string. `""` means no filter.
- A manual booking with a `clientId` that does not exist fails in the database as a
  foreign-key violation, so the model answers `StoreFault`.

## Model

| member | source | states |
|---|---|---|
| Appointments.Weekday | src/modules/appointments/appointment.routes.js:76-78 | the UTC weekday number of a date is in 0..6 |
| Appointments.WeekdayFacts | src/modules/appointments/appointment.routes.js:76-78 | weekdays repeat every 7 days, advance by one per day, and day 3 (1970-01-04) is a Sunday |
| Appointments.DayConfigOf | src/modules/appointments/appointment.routes.js:17-48 | Sunday is closed with no times; every other day has 5 times, all well-formed, strictly increasing and distinct; Monday to Friday share one list |
| Appointments.FormatAdmitsTimesOutsideTable | src/modules/appointments/appointment.routes.js:105 | the HH:MM pattern accepts "99:99", which no day's table offers |
| Appointments.AvailableTimes | src/modules/appointments/appointment.routes.js:58-96 | InvalidService exactly when the service is missing or inactive; otherwise the result keeps the table's order; a time is in it iff the table has it and no appointment of that service and date holds it; the result is empty on Sunday |
| Store.Store.Availability | src/modules/appointments/appointment.routes.js:58-96 | GET /availability over the tables: InvalidService exactly when the service is missing or inactive; otherwise a time is offered iff the day's table has it and no appointment of that service and date holds it; nothing is offered on Sunday |
| Appointments.StatusChangeKeepsAvailability | src/modules/appointments/appointment.routes.js:70-74 | changing an appointment's status never changes availability, so canceled and no-show appointments keep their slot |
| Appointments.BookingTakesSlot | src/modules/appointments/appointment.routes.js:70-90 | once an appointment is recorded, its time is no longer available for its service and date |
| Appointments.ChronoLeIsTotalPreorder | src/modules/appointments/appointment.routes.js:195 | ordering by date and then time is total and transitive |
| Appointments.ListAppointments | src/modules/appointments/appointment.routes.js:182-200 | the list holds exactly the rows matching the optional date and status, sorted by (date, time), with no duplicates |
| Store.Store.ClientByPhone | src/modules/appointments/appointment.routes.js:131-133 | the client with that phone and the smallest id, or None exactly when no client has that phone |
| Store.Store.AddClient | src/modules/appointments/appointment.routes.js:136-138 | a new client under a fresh id; nothing else changes |
| Store.Store.RenameClient | src/modules/appointments/appointment.routes.js:139-143 | only the client's name changes |
| Store.Store.AddAppointment | src/modules/appointments/appointment.routes.js:146-159 | a new appointment under a fresh id; the store stays valid |
| Store.Store.BookPublic | src/modules/appointments/appointment.routes.js:99-168 | InvalidInput unless the name has at least one and the phone at least eight UTF-16 code units and the time is HH:MM; errors come in the order InvalidInput, InvalidService, SlotTaken, each leaving the store unchanged; the booking succeeds exactly when the input is valid, the service is bookable and the slot is free; on success there is one new scheduled appointment, and the client found by phone is renamed, or exactly one new client is created; no other table changes |
| Store.Store.BookManual | src/modules/appointments/appointment.routes.js:252-316 | requires a clientId or both name and phone; the same checks as the public booking; a missing clientId is a StoreFault; the status defaults to scheduled; an existing client is never renamed; at most one client is created |
| Store.Store.UpdateStatus | src/modules/appointments/appointment.routes.js:236-249 | any status may follow any other; only that appointment's status changes; a missing id is a StoreFault with nothing changed |
| Store.Store.ListAppointments | src/modules/appointments/appointment.routes.js:178-206 | the list holds exactly the table's matching appointments, each once, sorted by (date, time) |
| Store.BookSlotTwice | src/modules/appointments/appointment.routes.js:122-128 | after a successful public booking, a second public booking of the same slot gets SlotTaken, whoever the client |
| Store.ManualAfterPublic | src/modules/appointments/appointment.routes.js:279-285 | after a successful public booking, a staff booking of the same slot gets SlotTaken |
| Testimonials.HexEncode | src/modules/testimonials/testimonial.routes.js:12 | two lower-case hex digits per byte |
| Testimonials.HexRoundTrip | src/modules/testimonials/testimonial.routes.js:12 | decoding the hex encoding gives back the bytes |
| Testimonials.GenerateUniqueLink | src/modules/testimonials/testimonial.routes.js:11-13 | the link is 32 lower-case hex characters and decodes to the 16 random bytes |
| Testimonials.LinksInjective | src/modules/testimonials/testimonial.routes.js:11-13 | different random bytes give different links |
| Testimonials.NewestPublished | src/modules/testimonials/testimonial.routes.js:18-20 | exactly the published rows, newest first, as many as there are published rows, and without duplicates when the rows have none |
| Testimonials.PublishedList | src/modules/testimonials/testimonial.routes.js:16-33 | every published row's projection appears, every entry is the projection of a published row, newest first, one entry per published row; entry i projects the i-th newest published row |
| Store.PublishedMatchTable | src/modules/testimonials/testimonial.routes.js:18-28 | over the table: every published testimonial's projection is listed; every listed entry is the projection of the published row under its id; newest first; one entry per published row |
| Store.PublishedCount | src/modules/testimonials/testimonial.routes.js:18-20 | the published list of the table has exactly as many entries as the table has published rows |
| Store.Store.PublishedList | src/modules/testimonials/testimonial.routes.js:16-33 | GET /published over the table: every published testimonial's projection is listed; every entry is the projection of the published row under its id; newest first; as many entries as published rows |
| Store.Store.TestimonialFor | src/modules/testimonials/testimonial.routes.js:61-63 | the one testimonial of an appointment: the found row is the only one with that appointment; None exactly when there is none |
| Store.Store.TestimonialByLink | src/modules/testimonials/testimonial.routes.js:149-151 | the one testimonial behind a link: the found row is the only one with that link; None exactly when there is none |
| Store.Store.FoundByAppointment | src/modules/testimonials/testimonial.routes.js:61-67 | a stored testimonial is what its appointment finds |
| Store.Store.FoundByLink | src/modules/testimonials/testimonial.routes.js:149-159 | a stored testimonial is what its link finds |
| Store.Store.AddTestimonial | src/modules/testimonials/testimonial.routes.js:71-81 | a new pending testimonial with rating 0 and empty text under a fresh id; one per appointment and unique links are preserved |
| Store.AddTestimonialKeepsConsistent | src/modules/testimonials/testimonial.routes.js:71-81 | a new pending testimonial under the next id, for an existing appointment and with a link and an appointment no other testimonial has, keeps every database constraint |
| Store.Store.GenerateLink | src/modules/testimonials/testimonial.routes.js:49-87 | NotFound for a missing appointment, creating nothing; the existing testimonial, unchanged, when there is one; otherwise one new pending row with rating 0, empty text, the client's name and phone and the generated link; a link already in use is a StoreFault |
| Store.Store.ReplaceTestimonial | src/modules/testimonials/testimonial.routes.js:161-168 | one testimonial is replaced, keeping its appointment, link and creation time; nothing else changes |
| Store.Store.Submit | src/modules/testimonials/testimonial.routes.js:137-174 | InvalidInput unless the rating is 1..5 and the text has 10 or more UTF-16 code units; NotFound for an unknown link; AlreadySubmitted when not pending; each error changes nothing; success sets rating, text and published on that row only |
| Store.Store.FormFor | src/modules/testimonials/testimonial.routes.js:116-135 | NotFound exactly when no testimonial has the link; otherwise the client name and status of that row and the name of its appointment's service |
| Store.Store.DeleteTestimonial | src/modules/testimonials/testimonial.routes.js:177-187 | removes exactly that row; a missing id is a StoreFault with nothing changed |
| Store.SubmitTwice | src/modules/testimonials/testimonial.routes.js:157-168 | after a successful submission, a second one to the same link gets AlreadySubmitted |
| Store.GenerateLinkTwice | src/modules/testimonials/testimonial.routes.js:61-67 | asking twice for an appointment's link answers the same testimonial both times |
| Services.NameLeIsTotalPreorder | src/modules/services/service.routes.js:14 | ordering services by name is total and transitive |
| Services.ActiveByName | src/modules/services/service.routes.js:12-15 | exactly the active services, sorted by name, with no duplicates |
| Services.Detail | src/modules/services/service.routes.js:23-35 | the service exactly when it exists and is active; NotFound otherwise |
| Store.Store.ServiceDetail | src/modules/services/service.routes.js:23-35 | GET /services/:id over the table: the stored service exactly when it exists and is active; NotFound otherwise |
| Store.Store.ListServices | src/modules/services/service.routes.js:10-20 | exactly the table's active services, each once, sorted by name |
| Store.Store.CreateService | src/modules/services/service.routes.js:38-73 | the schema decides InvalidInput; a new service under a fresh id, active unless said otherwise |
| Store.Store.UpdateService | src/modules/services/service.routes.js:76-95 | replaces name, duration and price; an omitted description or active flag keeps its value; a missing service is a StoreFault |
| Store.Store.SetActive | src/modules/services/service.routes.js:104-114 | only the service's active flag changes; a missing service is a StoreFault |
| Store.Store.DeleteService | src/modules/services/service.routes.js:117-133 | on success, removes the service and exactly its appointments, and other appointments are untouched; a missing service, or one whose appointments have a testimonial, is a StoreFault with nothing changed |
| Store.DeleteServiceKeepsConsistent | src/modules/services/service.routes.js:117-133 | removing a service together with all of its appointments, when none of them has a testimonial, keeps every database constraint |
| Text.StrLeIsTotalOrder | src/modules/clients/client.routes.js:38 | the name order is total, transitive and antisymmetric |
| Text.ContainsIff | src/modules/clients/client.routes.js:27-28 | `contains` holds exactly when the needle occurs at some position |
| Text.Utf16Length | src/modules/testimonials/testimonial.routes.js:140 | the length zod's `.min(n)` checks: at least the number of characters and at most twice it, and zero only for the empty string |
| Text.AstralCharsCountTwice | src/modules/testimonials/testimonial.routes.js:140 | a text of eight characters with three emoji beyond U+FFFF has eleven UTF-16 code units, so it passes a ten-unit minimum |
| Clients.SearchFindsOccurrence | src/modules/clients/client.routes.js:24-31 | a search string that occurs in a client's name or phone finds that client |
| Clients.Matching | src/modules/clients/client.routes.js:22-38 | exactly the matching clients, sorted by name, one entry per matching row |
| Clients.CeilDiv | src/modules/clients/client.routes.js:48 | the fewest pages of perPage rows that hold total rows |
| Clients.PageNonEmptyIff | src/modules/clients/client.routes.js:36-48 | a page holds rows exactly when its number is at most totalPages |
| Clients.RowOnOnePage | src/modules/clients/client.routes.js:36-37 | every matching row lies on exactly one page, and that page exists |
| Clients.PageWindow | src/modules/clients/client.routes.js:36-37 | the page is the window starting at (page-1)*perPage; its length is perPage, or what is left after the skipped rows when fewer remain, or 0 past the end; it is non-empty iff page <= totalPages |
| Clients.PageOfMatching | src/modules/clients/client.routes.js:33-39 | a page holds only matching rows, sorted by name |
| Clients.ListClients | src/modules/clients/client.routes.js:18-53 | page defaults to 1 and perPage to 20; items is the page's window of the matching clients; total counts them; totalPages is the ceiling of total/perPage |
| Clients.Detail | src/modules/clients/client.routes.js:55-75 | NotFound exactly for an unknown id; otherwise the client with exactly their appointments, latest date first, each once when the appointment list has no duplicates |
| Store.MatchingCount | src/modules/clients/client.routes.js:40 | total equals the number of client ids the search matches |
| Store.PageComesFromTable | src/modules/clients/client.routes.js:33-39 | every item on a page is a matching client of the table, and the page is sorted by name |
| Store.ClientPageOfTable | src/modules/clients/client.routes.js:33-48 | over the table: items are matching table clients sorted by name, and total counts the matching ids |
| Store.Store.ListClients | src/modules/clients/client.routes.js:18-53 | GET /clients over the table: the defaults, the window, the count of matching clients, totalPages, and the rule that items are non-empty iff page <= totalPages |
| Store.Store.ClientDetail | src/modules/clients/client.routes.js:55-75 | NotFound exactly for an unknown id; otherwise all of the client's appointments in the table, each once, latest first |
| Store.Store.CreateClient | src/modules/clients/client.routes.js:77-96 | InvalidInput unless the name has at least one and the phone at least eight UTF-16 code units; otherwise a new client under a fresh id, even when the phone is already on file |
| Store.Store.UpdateClient | src/modules/clients/client.routes.js:98-111 | InvalidInput unless the name has at least one and the phone at least eight UTF-16 code units; otherwise replaces name and phone of an existing client; a missing one is a StoreFault |
| SettingsRules.Latest | src/modules/settings/settings.routes.js:12-14 | None exactly for no rows; otherwise a row created no earlier than any other |
| SettingsRules.LatestIsUnique | src/modules/settings/settings.routes.js:12-14 | when creation times are distinct, the latest row is the one with the greatest creation time |
| SettingsRules.PublicView | src/modules/settings/settings.routes.js:16-24 | null when there is no row; otherwise exactly opening hours, social links and texts |
| SettingsRules.Merge | src/modules/settings/settings.routes.js:61-69 | each supplied field replaces its column; each omitted one, and the id and creation time, keep their values |
| SettingsRules.MergeIdempotent | src/modules/settings/settings.routes.js:61-69 | merging the same fields twice equals merging once; merging nothing changes nothing |
| SettingsRules.Initial | src/modules/settings/settings.routes.js:70-77 | the first row has `{}` for each omitted field |
| Store.LatestIsNewest | src/modules/settings/settings.routes.js:56-58 | with creation time equal to id, the row with the largest id is the latest |
| Store.Store.LatestSettings | src/modules/settings/settings.routes.js:31-41 | None exactly when the table is empty; otherwise the stored row with the greatest creation time and id |
| Store.Store.PublicSettings | src/modules/settings/settings.routes.js:10-28 | null exactly when there is no row; otherwise the three public columns of the row with the largest id |
| Store.Store.NewestIsLatest | src/modules/settings/settings.routes.js:56-58 | the row with the largest id is what the latest-row lookup answers |
| Store.Store.ReplaceSettings | src/modules/settings/settings.routes.js:61-69 | updating the latest row keeps it the latest; nothing else changes |
| Store.Store.AddSettings | src/modules/settings/settings.routes.js:70-77 | the first row becomes the latest |
| Store.Store.PutSettings | src/modules/settings/settings.routes.js:52-84 | with a row, the merge of the latest row, with no new row; with none, exactly one new row with `{}` defaults; either way the result is then the latest row |

## Left out

- Authentication (`auth` middleware, login and register), rate limiting and environment lookup:
  these rely on JWT, bcrypt and a timing library. Every handler is modelled as if its caller
  were allowed.
- Express routing, zod parsing and the error handler: a schema failure is `InvalidInput`,
  and a thrown database error is `StoreFault`.
- The gallery and service-image routes: they pass create, list and delete through unchanged.
- GET /testimonials (the staff list with nested appointment, service and client), GET
  /appointments/:id, and GET /testimonials/link-info/:appointmentId: these are read-throughs.
  The URL and WhatsApp message building with `encodeURIComponent` is string plumbing.
- Concurrency: the gap between the slot check and the insert, and between the link lookup and
  the create, matters only across concurrent requests. Every handler is atomic here.
- Randomness: the 16 bytes of `crypto.randomBytes` are a parameter of `GenerateLink`.
- Dates: `new Date(date + 'T00:00:00.000Z')` and `getUTCDay` become a day number since
  1970-01-01 and `Weekday`. The `YYYY-MM-DD` pattern and calendar validity are not modelled.
- Ids: the database's string ids are natural numbers handed out by one counter. An empty-string
  `clientId`, which is falsy in JavaScript, cannot be written.
- Creation times: `createdAt` is the logical clock `nextId`, so two rows never share a creation
  time. Ties in `orderBy: createdAt` are not modelled.
- Text order: Postgres collation is replaced by character-code order. Ties in an `orderBy` keep
  id order, which stands for the database's unspecified tie order.
- Store.Store.ListClients: requires positive `page` and `perPage`, because `parseInt` of other
  strings gives NaN or non-positive numbers whose database behaviour is not modelled.
- Clients.MatchesSearch: case folding is ASCII only; the database's `mode: 'insensitive'`
  follows its collation.
- Services.ValidServiceInput: the `parseInt` and `parseFloat` preprocessing of duration and price
  is not modelled, and the price is an exact real rather than a floating-point number.
- Appointments.ListMatch: a status filter is a string, but the stored status is one of four
  values. A request status the database enum would reject is treated as matching nothing,
  rather than as a database error.
- Store.Store.UpdateStatus and Store.Store.BookManual: the status is one of the four schema
  values, so a request with another status string cannot be written.
- Store.Store.DeleteService: the database schema is not part of this model. The
  testimonial-to-appointment reference is taken to restrict deletion, which is Prisma's default
  for a required relation. That makes the delete fail with nothing removed when one of the
  service's appointments has a testimonial. Service images are not modelled either. The source
  deletes the appointments and then the service as two writes outside a transaction
  (`src/modules/services/service.routes.js:119-126`). When the database refuses the second
  write, for instance because a service-image row still refers to the service, the
  appointments are already gone and the request ends in a 500. The model's promise that a
  failed delete changes nothing holds only because it has no image table.
- Store.Store.ClientByPhone: `findFirst({ where: { phone } })` has no `orderBy`
  (`src/modules/appointments/appointment.routes.js:131-133` and `:290`), and POST /clients
  accepts a phone already on file. So when two clients share a phone, the database decides
  which one a public booking renames and a staff booking reuses. The model always takes the
  one with the smallest id.
- Store.Store.GenerateLink: link uniqueness is enforced as a database constraint. A colliding
  link is a StoreFault rather than something ruled out by assumption.
- Store.Store.LatestSettings: the ordering is by the logical creation clock, which equals the id.
