# Bus reservation ledger

This project is a Dafny model of the reservation ledger inside the Bus-Management-API
Express server (`index.js`). The server keeps four Postgres tables: buses, bookings,
riders (`users`) and administrators (`admins`). Every route is a check-then-write rule
over those tables:

- riders and admins sign up and log in;
- two middleware gates admit requests: `protectRoute` for riders, and
  `adminProtectRoute` for admins, which also needs an API key;
- admins add buses, change a bus's capacity and rotate their API key;
- riders search routes, read a bus's seat counters, book seats, and list or look up
  their bookings;
- API keys and booking ids come from one nine-digit formatter:
  `(random % 1e9).toString().padStart(9, "0")`.

The model has six modules, one file each:

| file | module | what it holds |
|---|---|---|
| `key_format.dfy` | `KeyFormat` | The nine-digit formatter; `ValueOf`, the function that reads a key back as a number; the round trips between them; the collision property. |
| `tables.dfy` | `Tables` | The row types and the error kinds. The SELECT and UPDATE statements the handlers run, as functions on sequences of rows. The SERIAL-id and capacity invariants. |
| `access.dfy` | `Access` | The two gates and the two login handlers. What signup and key rotation do to the gates' answers. |
| `inventory.dfy` | `Inventory` | The checks `bookTickets` and `modifyAvailability` make before they write. What their writes do to the capacity invariant. |
| `queries.dfy` | `Queries` | The read-only rider routes: `checkBuses`, `checkSeatsAvailability`, `getBookingDetails` and `myBookings`, each as its query and as the query behind the rider gate. |
| `ledger.dfy` | `Ledger` | The `Store` class. Its fields are the four tables and their four SERIAL counters. It has one method per mutating route, each running its gate first, then the route's checks, then its writes. Each SQL write is its own small method that keeps `Valid()`. |

Each route method states three things:

- the error it answers with, for each refusal in the source's order;
- that a refused request changes nothing, which is what `BEGIN`/`ROLLBACK` and the
  early returns amount to for one request at a time;
- the whole new state on success.

`Valid()` is the store's invariant, and every method keeps it:

- every table's ids are positive, strictly increasing and below the table's counter;
- emails are unique among users and among admins.

The capacity invariant `seats_filled <= seats_available` is stated as its own
predicate, `WithinCapacity`, and is not part of `Valid()`. The reason is that
`addBus` as written accepts a negative capacity, so the code does not keep the
invariant unconditionally:

- `AddBus` states that the invariant survives exactly when the capacity is not negative;
- `ModifyAvailability` and `BookTickets` state that they keep it.

Collaborators that are not part of the ledger become parameters:

- bcrypt's hash result is an `Option<string>` (`None` is its callback error), and its
  comparison is a function argument;
- a JWT cookie is `NoCookie`, `Unverifiable` (verification throws) or
  `Verified(subject, role)`;
- the 32-bit value that `crypto.randomBytes(4).readUInt32BE()` returns is a `U32`
  argument.

JavaScript truthiness is modelled explicitly:

- an absent numeric body field and `0` both count as missing (`Truthy`);
- an absent string and `""` both count as missing (`Given`).

Where the code and its intended design differ, the model follows the code:

- `addBus` accepts a negative `seats_available`, and it refuses `0` only because `0`
  is falsy.
- `bookTickets` accepts a negative seat count on any bus within capacity that is not
  exactly full (`Inventory.NegativeSeatsBooked`), so `seats_filled >= 0` is not kept.
- `myBookings` answers "no bookings" as an error (404), not as an empty list.
- Neither gate reads the role claim in the token (`Access.GatesIgnoreRole`). An
  admin's token for subject k is admitted by `protectRoute` as rider k whenever a rider
  has id k (index.js:55), and a rider's token for subject k passes `adminProtectRoute`
  together with admin k's key (index.js:85).
- A token that fails verification is answered with the gate's internal-error response,
  not with an authorization error.
- Signup measures a password's length in UTF-16 code units, as JavaScript's `length`
  does, so a character outside the Basic Multilingual Plane counts twice
  (`Ledger.ThreeEmojiPasswordLength`).
- Nothing makes booking ids or API keys unique. `KeyFormat.FormatKeyCollides` states
  exactly when two random values collide.

## Model

| member | source | states |
|---|---|---|
| KeyFormat.ToDecimal | index.js:200 | `toString` of a non-negative integer: all digits, denotes the number, no leading zero, no more digits than the number needs |
| KeyFormat.PadStart | index.js:200 | `padStart`: the result has the requested width (or the original length if longer), ends with the original string and is filled before it |
| KeyFormat.FormatKey | index.js:200 | the formatter used for admin keys (200, 313) and booking ids (386): exactly nine decimal digits whose value is `n mod 10^9` |
| KeyFormat.FormatKeyOnto | index.js:313 | for any nine-digit string, the formatter yields it exactly for the values congruent to its value modulo 10^9 |
| KeyFormat.KeyRoundTrip | index.js:386 | reading a nine-digit key as a number and formatting that number gives the same key back |
| KeyFormat.FormatKeyCollides | index.js:386 | two random values give the same key iff they agree modulo 10^9, so keys are not unique |
| KeyFormat.SevenCollides | index.js:386 | a concrete collision: 7 and 1000000007 both give "000000007" |
| Tables.FirstWhere | index.js:56-59 | `result.rows[0]`: the first matching row, none before it matches; none exactly when no row matches |
| Tables.BusById | index.js:369-374 | the bus lookup finds a row carrying that id, and finds none iff no row carries it |
| Tables.BusByIdUnique | index.js:369-374 | with SERIAL ids the lookup by a row's id returns that very row |
| Tables.UserById | index.js:55-59 | the rider gate's lookup: a row with that id, none iff no row has it |
| Tables.UserByEmail | index.js:108-112 | signup's and login's lookup: a row with that email, none iff no row has it |
| Tables.AdminByEmail | index.js:191-195 | the admin lookup by email, none iff no admin has it |
| Tables.AdminByIdAndKey | index.js:85-87 | the admin gate's lookup: a row with that id and that key, none iff no row has both |
| Tables.FirstWhereAgrees | index.js:369-374 | two tables of the same length that agree, row by row, on which rows match give the same first match |
| Tables.SeatsFilledLookup | index.js:389 | after the seats_filled update, the lookup of that id finds the same bus with the new count, and the lookup of any other id finds what it found before |
| Tables.SeatsAvailableLookup | index.js:300 | after the seats_available update, the lookup of that id finds the same bus with the new capacity, and the lookup of any other id finds what it found before |
| Tables.ApiKeyLookup | index.js:314 | after the api_key update, the gate's lookup finds that admin with the new key iff the admin exists, finds nothing with any other key, and answers as before for every other id |
| Tables.SerialInsert | index.js:118 | an insert under the next SERIAL id keeps ids increasing and below the advanced counter |
| Tables.SerialKeptByUpdate | index.js:389 | an update that keeps every row's id keeps the SERIAL column |
| Access.ProtectRoute | index.js:44-66 | admits exactly a verified token whose subject is a rider's id, with that rider; no cookie, a failed verification and an unknown subject each give their own error |
| Access.AdminProtectRoute | index.js:69-95 | admits exactly when a token and a non-empty api key are present, the token verifies and an admin row has the subject's id and that key; the refusals are checked in the source's order |
| Access.UserLogin | index.js:134-160 | success iff a row has that email and the comparison accepts its stored hash, with that row; an unknown email is its own error; a comparison error gives the hash error and a rejection gives invalid credentials, each iff it happens |
| Access.AdminLogin | index.js:217-244 | success iff an admin has that email and the comparison accepts its hash, with that admin; invalid credentials iff the email is unknown or the comparison rejects; the hash error iff the comparison fails |
| Access.GatesIgnoreRole | index.js:49-87 | the role claim written into the token changes neither gate's answer |
| Access.NewUserAdmitted | index.js:118-119 | a rider inserted under the next SERIAL id is admitted by the rider gate with a token for that id |
| Access.NewAdminAdmitted | index.js:200-202 | an admin inserted under the next SERIAL id is admitted by the admin gate with its freshly generated key |
| Access.NewUserLogsIn | index.js:137-150 | a newly signed-up rider with a fresh email logs in with any password the comparison accepts against the stored hash |
| Access.NewAdminLogsIn | index.js:221-232 | a newly signed-up admin with a fresh email logs in with any password the comparison accepts against the stored hash |
| Access.RotatedKeyAdmits | index.js:313-314 | after rotation the gate admits the admin with the new key and refuses any other key, including the old one |
| Access.RotationLeavesOthers | index.js:314 | rotating one admin's key changes no other subject's gate answer |
| Inventory.CheckBooking | index.js:365-383 | a booking passes its checks only for truthy id and seats, a known bus that is not full, and a seat count that fits |
| Inventory.BookingRefusals | index.js:365-383 | each of the four refusals happens exactly when its condition holds |
| Inventory.BookingKeepsCapacity | index.js:380-389 | the booking's update raises only the booked bus's seats_filled, by exactly the seat count, and keeps the capacity invariant |
| Inventory.NegativeSeatsBooked | index.js:375-383 | on a bus within capacity, a negative seat count is refused only when the bus is exactly full; otherwise it is booked |
| Inventory.CheckCapacityChange | index.js:292-298 | a falsy id or capacity, an unknown bus, and a capacity below seats_filled are refused (equality allowed); accepted iff both fields are truthy, the bus exists and its seats_filled fits the new capacity, with that bus |
| Inventory.CapacityChangeKeepsCapacity | index.js:298-300 | the capacity update changes only that bus's seats_available and keeps the capacity invariant |
| Inventory.NewBusKeepsCapacity | index.js:276-279 | a new bus with no seats filled keeps the capacity invariant iff its capacity is not negative |
| Queries.BusesBetween | index.js:331 | exactly the buses with that start and end station, each as many times as the table holds it and no other row |
| Queries.CheckBuses | index.js:327-333 | both stations are required; otherwise exactly the buses on that route, none repeated beyond the table, an empty answer being a success |
| Queries.CheckBusesRoute | index.js:322-339 | the rider gate's error first; then both stations required; success iff the gate admits and both are given, with exactly the buses on that route, none repeated beyond the table |
| Queries.CheckSeatsAvailability | index.js:344-353 | a falsy id is refused and an unknown id is not found; success iff the id is truthy and some bus carries it, with that bus's two counters |
| Queries.CheckSeatsAvailabilityRoute | index.js:341-358 | the rider gate's error first; then a falsy id is refused and an unknown bus is not found; success iff the gate admits, the id is truthy and some bus carries it, with that bus's two counters |
| Queries.BookingShowsInSeats | index.js:346-353 | after an accepted booking's seats_filled update, the seat query for that bus answers its capacity and the new filled count, which fits the capacity |
| Queries.SeatsAfterFill | index.js:389 | after the seats_filled update of the bus the lookup finds, the seat query for that id answers the bus's capacity and the new count |
| Queries.BookingLeavesOtherSeats | index.js:389 | the seats_filled update of one bus leaves the seat query of every other bus unchanged |
| Queries.GetBookingDetails | index.js:404-409 | a booking id is required; not found iff no booking carries it; success iff some booking carries it, with a booking carrying it |
| Queries.GetBookingDetailsRoute | index.js:400-414 | the rider gate's error first; then a missing booking id is refused and an unmatched one is not found; success iff the gate admits, a booking id is given and some booking carries it, with such a booking |
| Queries.NewestFirst | index.js:420-423 | exactly the caller's bookings, in decreasing id order when the table's ids increase |
| Queries.MyBookings | index.js:420-427 | for a given email: an error iff it has no booking; otherwise a non-empty list of exactly its bookings, newest first |
| Queries.MyBookingsRoute | index.js:416-437 | the rider gate's error first; success iff the gate admits a rider who has a booking, with exactly that rider's bookings, newest first; an admitted rider without bookings gets the no-bookings error |
| Queries.NewBookingListedFirst | index.js:420-427 | a new booking heads its rider's list, followed by the rider's earlier list |
| Queries.NewBookingInvisibleToOthers | index.js:420-423 | a new booking leaves every other rider's list unchanged |
| Queries.NewBookingFound | index.js:406-410 | a new booking is found by its booking id, and is the answer unless an older booking carries the same id |
| Ledger.Store.constructor | index.js:21-29 | an empty store whose invariant holds |
| Ledger.Utf16Length | index.js:103 | JavaScript's `length`: at least the number of characters and at most twice it, and equal to it when every character is in the Basic Multilingual Plane |
| Ledger.Utf16LengthChar | index.js:103 | one character has length 2 if it lies outside the Basic Multilingual Plane and 1 otherwise |
| Ledger.Utf16LengthConcat | index.js:188 | the length of a concatenation is the sum of the lengths; with the one-character law this fixes every string's length |
| Ledger.ThreeEmojiPasswordLength | index.js:188 | a password of three astral characters has length six and passes the minimum-length check |
| Ledger.Store.SignupUser | index.js:98-132 | a password shorter than six UTF-16 code units is refused first, then a registered email, then a hash error; success appends exactly one rider with the next id, changes nothing else, and the rider gate admits that rider; a refusal changes nothing |
| Ledger.Store.SignupAdmin | index.js:183-215 | the same checks against the admins table; success appends one admin carrying the formatted key, and the admin gate admits it with that key |
| Ledger.Store.AddBus | index.js:270-285 | the admin gate's error first, then missing fields; success appends one bus with the given stations and capacity and no seats filled; the capacity invariant survives iff the capacity is not negative |
| Ledger.Store.ModifyAvailability | index.js:287-306 | the gate, then the checks of `CheckCapacityChange`; success changes only that bus's seats_available and keeps the capacity invariant; a refusal changes nothing |
| Ledger.Store.GenerateApiKey | index.js:308-320 | the gate's error, or a new formatted key stored on the caller's row only; afterwards the gate admits the caller with the new key and refuses the old one |
| Ledger.Store.BookTickets | index.js:359-398 | the rider gate, then the four booking refusals, each leaving the store unchanged; success appends one booking with the rider's name and email, the bus's stations, the formatted id and the seat count, raises only that bus's seats_filled, and keeps the capacity invariant |
| Ledger.Store.InsertUser | index.js:118 | the users insert: one row appended under the next id, invariant kept, nothing else changed |
| Ledger.Store.InsertAdmin | index.js:201 | the admins insert: one row appended under the next id, invariant kept, nothing else changed |
| Ledger.Store.InsertBus | index.js:279 | the buses insert: one row appended under the next id, invariant kept, nothing else changed |
| Ledger.Store.InsertBooking | index.js:388 | the bookings insert: one row appended under the next id, invariant kept, nothing else changed |
| Ledger.Store.UpdateSeatsAvailable | index.js:300 | the buses update of seats_available, invariant kept, no other table changed |
| Ledger.Store.UpdateSeatsFilled | index.js:389 | the buses update of seats_filled, invariant kept, no other table changed |
| Ledger.Store.UpdateApiKey | index.js:314 | the admins update of api_key, invariant kept, no other table changed |
| Ledger.RotationKeepsAdmins | index.js:314 | the key update keeps every admin's id and email and changes only the rows carrying that admin's id |

## Left out

- HTTP and Express are not modelled: routing, body and cookie parsing, status codes
  (replaced by the `Error` kinds), response bodies and console logging.
- Logout, the two `checkAuth` routes and cookie issuing are left out. They change no
  table: they only clear a cookie or echo the gate's row.
- The Postgres client and the SQL text are left out. Tables are sequences of rows in
  insertion order, and each statement is a function on them. Database failures (the
  `catch` branches that answer 400, 404 or 500) are not modelled.
- Concurrency is left out: the check-then-write race in `bookTickets` and interleaved
  requests. The model runs one request at a time.
- Ledger.Store.BookTickets: the missing `ROLLBACK` before "Not Enough Seats"
  (index.js:381-382) is not modelled. The server uses one shared database client
  (index.js:21), so that refusal leaves its `BEGIN` open: later writes from any request
  join that transaction, and the next `ROLLBACK` on a refusal discards them. The model
  treats every refusal as changing nothing and every write as committed at once.
- bcrypt is left out; it is a foreign library. The hash and the comparison are
  parameters.
- JWT signing, verification and the seven-day expiry are left out; they are a foreign
  library and depend on a clock. A token is modelled by what verification makes of it.
- `crypto.randomBytes` is left out; it is a source of randomness. Its 32-bit reading is
  a parameter, so the uneven spread of `% 1e9` over 32-bit values is not modelled.
- Request fields whose type differs from the model's are not modelled: a string
  `busId`, `seats` or `seats_available`, a numeric `booking_id`, a missing `name` or
  `email`. The server parses both JSON and urlencoded bodies (index.js:16-17), and a
  urlencoded form always delivers strings, so a string `seats` (which
  `bus.seats_filled + numberOfSeats` concatenates) is the normal case for form posts.
  The model takes the JSON reading with numeric fields. Neither is a missing `password`
  at signup modelled, which makes `password.length` throw outside the handler's `try`.
- Ledger.Store.GenerateApiKey: the falsy-id check at index.js:311 is kept, but it never
  fires in the model, because every row's id is at least 1.
- Queries.BusesBetween and Queries.GetBookingDetails return rows in table order.
  Without `ORDER BY`, SQL leaves the order unspecified, so the model fixes one
  possible order.
- Ledger.Store.BookTickets: its contract does not restate the effect on `myBookings`
  and `getBookingDetails`. `Queries.NewBookingListedFirst` and `Queries.NewBookingFound`
  state these over `old(bookings) + [booking]`, which is the new bookings table that
  the method's contract gives.
