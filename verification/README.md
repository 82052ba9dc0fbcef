# ABS Cinema booking core in Dafny

A functional model of the seat-inventory and booking logic of the ABS Cinema
demonstration web application (`app.py`). The application keeps three tables
(seat inventory per showing, bookings, users) and one session per client.
It offers four operations: database initialisation, login, logout and the
booking endpoint. The booking endpoint has a regular single-booking path with
a capacity check, and an administrators' batch path that writes bookings
without touching the inventory.

The model is a sequential state machine over immutable values:

- `Cinema` holds the data model. A `State` has `inventory: map<Key, SeatBlock>`
  keyed by (cinema, movie, show time), an append-only `bookings: seq<Booking>`,
  the `users` table and an optional session `Identity`. Every operation returns
  a `Step(state, reply)`. A failure reply carries the unchanged state, so
  "a failure changes nothing" is part of each contract. `Message` gives the
  exact failure texts.
- `Seeding` covers `init_db`: 4 cinemas × 4 movies × 2 show times, i.e. 32
  blocks with ids 1..32, 500 seats each and none booked, plus the five users.
  Each table is seeded only when it is empty. `SeedSeats` is the nested loop,
  proved equal to the closed-form `SeedRows`.
- `Auth` covers login by exact username/password match, taking the first
  match in table order, and logout.
- `BookingService` covers the regular path (`Book`), the batch path
  (`AdminBatch`) and the dispatch between them (`HandleBook`).
- `Decimal` renders a list index in decimal, as the batch booking ids do, and
  proves the rendering injective through a parse-back round trip.
- `Properties` relates several requests. Its main result is the seat ledger:
  from a fresh store, after any sequence of logins, logouts and booking
  requests, each block's booked count equals the summed attendees of the
  regular bookings for that showing. It also covers capacity under non-admin
  bookings, admin overbooking, negative attendee counts, pricing agreement
  between the two paths, identifier uniqueness and the seeded credentials.

Quirks the model keeps as the code has them:

- Attendee counts are never checked for sign. A negative count passes the
  capacity check and lowers the booked count. So `booked <= total` survives
  non-admin bookings, but `booked >= 0` does not.
- An admin session skips the capacity check on the regular path, yet the row
  it writes is not marked as an admin booking.
- Admin batch bookings never consult or change the inventory.
- The session check comes before the body is inspected. A body with a
  `cinema` field takes the regular path even if it also has `admin_bookings`.
  A body with neither field gets 'Invalid request format'.
- The final price is total minus discount, with no clamping, so it can be
  negative.
- The code seeds 4 × 4 × 2 = 32 blocks.

Inputs the code reads from its environment are parameters. The clock is a
function `clock: nat -> string`: `clock(n)` is the
`datetime.now().strftime('%y%m%d%H%M%S')` text of the request's n-th clock
read. The regular path reads it once, as `clock(0)`, which `Book` takes as
`ts`. The batch path reads it again for every element, so the i-th batch row
is stamped `clock(i)`. A batch that crosses a second boundary therefore mixes
timestamps. The client's session is part of `State`. Request fields arrive
already typed.

## Model

| member | source | states |
|---|---|---|
| `Cinema.Message` | app.py:161-319 | each failure kind has its own reply text ('Invalid credentials', 'Not logged in', 'Invalid cinema, movie or time', 'Not enough seats available', 'Not authorized', 'Invalid request format'), so reading the text back recovers the failure |
| `Decimal.FromNat` | app.py:287 | the decimal text of a batch index is non-empty, all digits, and has no leading zero unless the index is below ten |
| `Decimal.RoundTrip` | app.py:287 | parsing the decimal text of n gives back n |
| `Decimal.FromNatInjective` | app.py:287 | distinct indices render to distinct texts |
| `Seeding.SeedSeats` | app.py:60-76 | the nested cinema/movie/show-time loops insert exactly the rows of the closed-form seed list, in order, with ids counting from 1 |
| `Seeding.SeedRowsDistinct` | app.py:60-76 | no two seeded rows share a (cinema, movie, show time) key |
| `Seeding.TabulateFacts` | app.py:68-76 | inserting rows with distinct keys gives one block per row, with that row's id, 500 seats and none booked, and no other key |
| `Seeding.SeedInventory` | app.py:60-76 | the seeded inventory has exactly 32 blocks, whose keys are exactly the combinations of the seed lists; ids cover 1..32 without repetition; each block has 500 seats and none booked |
| `Seeding.SeedUsers` | app.py:82-88 | five seeded users with ids 1 to 5 in order and distinct usernames; "admin" with password "@dM!N" is among them and is the only administrator |
| `Seeding.InitDb` | app.py:64-89 | an empty inventory becomes the seeded inventory and an empty users table the seeded users, each independently of the other; non-empty tables, the bookings and the session are left as they were |
| `Seeding.InitDbIdempotent` | app.py:64-80 | initialising twice equals initialising once |
| `Seeding.FreshStore` | app.py:60-89 | a freshly initialised store has the seeded inventory and users, no bookings, no session, all blocks within capacity and seat counts agreeing with the bookings table |
| `Auth.FindUser` | app.py:143-147 | the lookup returns the first user in table order whose username and password both match, and returns none exactly when no user matches |
| `Auth.Login` | app.py:143-161 | login succeeds exactly when some user matches both credentials, and then sets the session to that user's id, name and admin flag and touches nothing else; otherwise it replies 'Invalid credentials' and leaves the state, including any session, unchanged |
| `Auth.Logout` | app.py:168-171 | logout always succeeds, empties the session and leaves the tables unchanged |
| `BookingService.Book` | app.py:196-262 | a regular booking succeeds exactly when a session exists, the showing exists, and the client is an admin or the attendees fit the remaining seats; each failure ('Not logged in', 'Invalid cinema, movie or time', 'Not enough seats available') leaves the state unchanged; a success changes only that block, raising its booked count by the attendees; it appends one row with id "BK"+ts, the session's user, not marked admin, priced 10 per attendee less the discount (default 0); the reply is that row's payload |
| `BookingService.AdminBatch` | app.py:265-317 | the batch path fails with 'Not logged in' or 'Not authorized' without changes unless the session is an admin; it never changes the inventory; for an admin it appends one admin-marked row per request in input order; the i-th row has id "ADMIN-BK"+clock(i)+"-"+i, using that element's own clock read, and the same pricing; the reply lists payloads matching those rows in length and order |
| `BookingService.HandleBook` | app.py:191-319 | the endpoint checks the session first; the regular path gets the request's first clock read; a body with a cinema takes the regular path even when admin_bookings is present; a body with only admin_bookings takes the batch path; a body with neither gets 'Invalid request format' and changes nothing |
| `Properties.BookKeepsLedger` | app.py:233-247 | a regular booking keeps every block's booked count equal to the summed attendees of the non-admin rows for its showing |
| `Properties.AdminBatchKeepsLedger` | app.py:289-298 | an admin batch keeps that agreement, because its rows are admin rows and the inventory is not touched |
| `Properties.RunKeepsLedger` | app.py:191-319 | any sequence of logins, logouts and booking requests preserves the agreement between seat counts and the bookings table |
| `Properties.FreshRunLedger` | app.py:66-76 | from a freshly seeded store, the agreement holds after any sequence of requests |
| `Properties.NonAdminBookKeepsCapacity` | app.py:229-237 | a regular booking from a non-admin session keeps every block's booked count at most its total |
| `Properties.NonAdminSeriesKeepsCapacity` | app.py:229-237 | any series of regular bookings by a non-admin client, starting within capacity, stays within capacity |
| `Properties.AdminOverbooks` | app.py:229-247 | an admin session's regular booking of more than the remaining seats succeeds, pushes the block past its total, and is recorded as a non-admin booking |
| `Properties.NegativeAttendeesLowerBooked` | app.py:204-237 | a non-admin booking with a negative attendee count on a block within capacity succeeds and lowers the booked count, below zero when it was zero |
| `Properties.SamePricingBothPaths` | app.py:280-284 | for the same request, the regular path and the batch path report the same total, discount and final price |
| `Properties.DiscountBeyondTotal` | app.py:205-208 | a discount larger than the total yields a negative final price, with no clamping |
| `Properties.BatchIdsDistinct` | app.py:287 | two positions in one batch get different booking ids, whichever twelve-digit timestamps the clock returns for them |
| `Properties.RegularIdsAreNotBatchIds` | app.py:214 | a regular booking id never equals a batch booking id |
| `Properties.RegularIdsCollide` | app.py:214 | two regular bookings with the same timestamp get the same booking id, so ids are not unique |
| `Properties.LoginFindsUser` | app.py:143-152 | when usernames are unique, a user's own credentials log in as exactly that user |
| `Properties.SeededAdminLogin` | app.py:82-88 | in a fresh store "admin" with password "@dM!N" logs in as user 2 with the admin flag, and a wrong password is refused with 'Invalid credentials' |
| `Properties.LogoutThenBookFails` | app.py:196-197 | after a logout every booking request is refused with 'Not logged in' and changes nothing |

## Left out

- Web-framework plumbing (routing, templates, redirects, JSON encoding, static file serving, `/api/cinema_data`): it is I/O around the core. The seat listing is the `inventory` map itself.
- The SQL store: tables are modelled as a map and sequences. Connections, SQL text, commit and close are not modelled.
- SQL injection in login: login is modelled as exact string matching. The code builds the query by string interpolation, so quote characters in the input change its meaning. That meaning depends on the SQL engine, and the `sqlite3.Error` reply it can cause is not modelled either.
- The race between the seat read and the seat update: the model is sequential, one request at a time.
- The `booking_time` column: the store's clock fills it, not the code. The auto-increment row id of a booking, which starts at 1, is its position in the sequence plus one.
- Writing the credentials file and everything in `run_locally.py`: these are file and process operations.
- Failures of `int()`/`float()` on malformed fields, and the resulting error and uncommitted batch: requests arrive already typed.
- Integer width and floating point: attendees and seat counts are unbounded integers, and discounts and prices are exact reals. SQLite's 64-bit integers and Python's binary floats are not modelled.
- The session's admin flag is a boolean. The code stores the 0/1 column value and tests its truth, which behaves the same for the seeded users.
