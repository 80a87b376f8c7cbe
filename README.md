# Table assignment guards of a restaurant reservation back end

This project models the table controller of a restaurant reservation back
end (`back-end/src/tables/tables.controller.js`). The controller puts three
ordered chains of guards in front of two record stores, a store of tables
(`table_id`, `table_name`, `capacity`, nullable `reservation_id`) and a store
of reservations (`reservation_id`, `people`, `status`):

- **create** checks that a name and a capacity are present, that the name is
  long enough and that the capacity is a positive integer, then inserts the
  table with `reservation_id` defaulting to `null`;
- **seatReservation** checks, in this order, that a reservation id was sent,
  that the reservation exists, that the table exists, that the reservation is
  not already "seated", that the table is free and that the party fits; then
  the table points at the reservation and the reservation becomes "seated";
- **finishReservation** checks that the table exists, that the reservation
  read for the table's `reservation_id` is not `null`, and that the table is
  occupied; then the table is freed and the reservation becomes "finished".

Each guard either passes or fails fast with a status (400 or 404) and an
error kind. The model is layered the way the controller is:

- `Js` — the JavaScript values a request body can carry, truthiness and `||`.
  The controller's checks are truthiness tests (`if (data[name])`), so a
  capacity of 0, an empty name or a reservation id of 0 count as missing.
- `Records` — the body's `data`, tables, reservations, error kinds and the
  result of a reservation read, which keeps `undefined` apart from `null`.
- `Guards` — the pure guards (`bodyDataHas`, `tableNameIsValidLength`,
  `capacityIsValidNumber`, `checkCapacity`, `checkIfOccupied`,
  `checkIfNotOccupied`, `checkIfSeated`).
- `Transitions` — the three chains as functions of a value `Db` holding both
  stores; they are the specification of the class below.
- `Store` — class `TableStore` with the two stores as `map` fields; its
  lookup guards (`tableExists`, `checkReservationFromBody`,
  `checkReservationFromTable`) return the record that the controller keeps in
  `res.locals`, and its chain methods run the guards one after another and
  then perform the writes in the controller's order (table first, then
  reservation). Each chain method is proved equal to its `Transitions`
  function.
- `Properties` — guard order, capacity boundary, the writes on success, the
  Free/Occupied transitions, finishing twice.
- `Consistency` — the table/reservation relation that seat and finish
  maintain, proved for any sequence of seats, finishes and creates that carry
  no reservation id; a create that carries one can break it.

The persistence services are abstract: a read is a map lookup, an update
writes the columns it is given over the record stored under the same id and
keeps the others (the model hands it the whole record with the changed
columns), and an insert stores the new table under
the next id of a counter. What a reservation read returns on a miss
(`undefined` or `null`) belongs to the persistence layer, so it is a
parameter of the store (`Absent`); only an integral id addresses a stored
reservation.

Behaviour of the controller worth noting:

- A capacity of 0 is reported as a missing capacity, because the truthiness
  check runs before the value check; a capacity of -1 or 2.5 is reported as
  an invalid capacity. Both answers are 400.
- Among strings, numbers and booleans, the name check rejects only a string
  shorter than two characters. A truthy value without a length, such as the
  number 7, passes it, so a table can be
  created with a numeric name.
- `finishReservation` reports a missing reservation only when the read yields
  `null`. When a miss yields `undefined`, a free table reaches the 400 "not
  occupied" guard, and a table whose reservation id names no stored
  reservation is freed without any reservation being written.
- Only the status "seated" blocks seating, so a reservation whose status is
  "finished" can be seated again at another table.
- `create` accepts a truthy `reservation_id` without any check, which can make
  two tables point at the same reservation (`CreateWithReferenceBreaksConsistency`).

## Model

| member | source | states |
|---|---|---|
| `Js.Truthy` | back-end/src/tables/tables.controller.js:8 | a value is truthy exactly when it is none of `undefined`, `null`, `false`, `0`, `NaN` and the empty string |
| `Js.LengthBelow` | back-end/src/tables/tables.controller.js:22 | `length < k` holds only of a string, and of a string exactly when it has fewer than `k` characters |
| `Js.IsInteger` | back-end/src/tables/tables.controller.js:35 | `Number.isInteger` holds exactly of an integral number |
| `Js.Or` | back-end/src/tables/tables.controller.js:137 | the default operator gives its first operand when that is truthy and the fallback otherwise |
| `Guards.BodyDataHas` | back-end/src/tables/tables.controller.js:5-16 | passes exactly when the body field is truthy; otherwise 400 missing-field for that field |
| `Guards.TableNameIsValidLength` | back-end/src/tables/tables.controller.js:18-29 | fails (400 name too short) exactly for a string of fewer than two characters; longer strings and values without a length pass |
| `Guards.CapacityIsValidNumber` | back-end/src/tables/tables.controller.js:31-42 | passes exactly for an integral number of at least 1; anything else is 400 bad capacity |
| `Guards.CheckCapacity` | back-end/src/tables/tables.controller.js:85-93 | passes exactly when the party size is at most the table's capacity; otherwise 400 over capacity |
| `Guards.CheckIfOccupied` | back-end/src/tables/tables.controller.js:95-103 | passes exactly when the table's reservation id is `null`; otherwise 400 occupied |
| `Guards.CheckIfNotOccupied` | back-end/src/tables/tables.controller.js:105-113 | passes exactly when the table's reservation id is not `null`; otherwise 400 not occupied |
| `Guards.CheckIfSeated` | back-end/src/tables/tables.controller.js:115-124 | passes exactly when the status is not "seated"; otherwise 400 already seated |
| `Transitions.ReadReservation` | back-end/src/tables/tables.controller.js:58 | a reservation read finds the record exactly for an integral stored id, and otherwise yields the store's miss result |
| `Transitions.CreateChecks` | back-end/src/tables/tables.controller.js:183-187 | the validation part of the create chain passes exactly when the name is truthy and not a short string and the capacity is an integer of at least 1; failures are 400 |
| `Transitions.NewTable` | back-end/src/tables/tables.controller.js:131-138 | the new record carries the supplied name and capacity, and the supplied reservation id when truthy, else `null` |
| `Transitions.Create` | back-end/src/tables/tables.controller.js:131-143 | succeeds exactly when the validations pass; a failure returns the first failing guard's error and leaves both stores unchanged; a success inserts one table under an id not yet used and changes nothing else |
| `Transitions.Seat` | back-end/src/tables/tables.controller.js:145-161 | any guard failure leaves both stores unchanged; a success requires a free table that fits a stored, not-seated reservation and writes exactly that table (now pointing at the reservation) and that reservation (now "seated") |
| `Transitions.Finish` | back-end/src/tables/tables.controller.js:163-179 | any guard failure leaves both stores unchanged; a success requires an occupied table and a non-`null` read, frees the table and marks the reservation read (if one was found) "finished", and nothing else |
| `Store.TableStore.TableExists` | back-end/src/tables/tables.controller.js:44-53 | returns the table stored under the id exactly when there is one, else 404 table not found |
| `Store.TableStore.CheckReservationFromBody` | back-end/src/tables/tables.controller.js:55-68 | returns the reservation the body's id names exactly when it is stored; either kind of miss is 404 |
| `Store.TableStore.CheckReservationFromTable` | back-end/src/tables/tables.controller.js:70-83 | fails with 404 exactly when the read misses and the miss reads as `null`; a miss that reads as `undefined` is passed on |
| `Store.TableStore.UpdateTable` | back-end/src/tables/tables.controller.js:151 | the table update stores the record under its own id and changes nothing else |
| `Store.TableStore.UpdateReservation` | back-end/src/tables/tables.controller.js:159 | the reservation update stores the record under its own id and changes nothing else |
| `Store.TableStore.Create` | back-end/src/tables/tables.controller.js:183-189 | running the create chain on the stores gives the answer and the new stores of `Transitions.Create` |
| `Store.TableStore.SeatReservation` | back-end/src/tables/tables.controller.js:190-198 | running the six seat guards and the two writes gives the answer and the new stores of `Transitions.Seat` |
| `Store.TableStore.FinishReservation` | back-end/src/tables/tables.controller.js:199-204 | running the three finish guards and the two writes gives the answer and the new stores of `Transitions.Finish` |
| `Properties.CreateGuardOrder` | back-end/src/tables/tables.controller.js:183-187 | the first failing check, in chain order (name present, capacity present, name length, capacity value), decides the 400 error |
| `Properties.CreateStoresSupplied` | back-end/src/tables/tables.controller.js:131-140 | create succeeds iff the name and capacity are valid; the stored table reads back with exactly the supplied name and capacity, reservation id `null` when absent or falsy, and no other record changes |
| `Properties.CreateBoundaries` | back-end/src/tables/tables.controller.js:5-42 | capacity 0 is "missing", -1, 2.5 and "4" are invalid, 1 is accepted; a name of length 1 is too short, length 2 and a numeric name are accepted |
| `Properties.SeatGuardOrder` | back-end/src/tables/tables.controller.js:190-198 | the first failing guard decides the answer: missing id 400, unknown reservation 404, unknown table 404, already seated 400, occupied 400, too large 400 |
| `Properties.SeatSucceedsIff` | back-end/src/tables/tables.controller.js:145-161 | seating succeeds iff all six guards pass; then the table points at the reservation with its id, name and capacity unchanged (the seat body's other fields are not modelled), the reservation is "seated" with its other fields unchanged, and no other record changes |
| `Properties.SeatCapacityBoundary` | back-end/src/tables/tables.controller.js:85-93 | with the other guards passing, a party exactly as large as the table is seated and one person more is refused |
| `Properties.SeatTwiceFails` | back-end/src/tables/tables.controller.js:95-103 | after a successful seat, seating the same reservation again fails as already seated and any other stored unseated reservation fails as occupied, with nothing changed |
| `Properties.FinishOccupied` | back-end/src/tables/tables.controller.js:163-179 | finishing a table that points at a stored reservation frees the table with its other fields unchanged and marks that reservation "finished" with its other fields unchanged |
| `Properties.FinishFree` | back-end/src/tables/tables.controller.js:70-83 | finishing a free table fails and changes nothing: 400 not occupied when a miss reads as `undefined`, 404 when it reads as `null` |
| `Properties.FinishGuardOrder` | back-end/src/tables/tables.controller.js:199-204 | an unknown table is 404, a `null` reservation read is 404, a free table is 400, and finishing succeeds exactly for an occupied table whose read is not `null` |
| `Properties.FinishDangling` | back-end/src/tables/tables.controller.js:70-83 | a table pointing at no stored reservation is freed with no reservation written when a miss reads as `undefined`, and is 404 with nothing changed when it reads as `null` |
| `Properties.FinishTwiceFails` | back-end/src/tables/tables.controller.js:199-204 | after a successful finish, finishing the same table again fails and changes nothing |
| `Properties.SeatThenFinish` | back-end/src/tables/tables.controller.js:145-179 | seating moves a table from free to occupied, and finishing it restores the table exactly and leaves the reservation "finished" |
| `Properties.FinishedReservationCanBeReseated` | back-end/src/tables/tables.controller.js:115-124 | a reservation that was seated and finished can be seated again at another free table that fits it |
| `Properties.EndToEnd` | back-end/src/tables/tables.controller.js:131-179 | create a table of 4, seat a party of 4, finish, finish again: the table and reservation pass through free/seated/free/finished and the second finish is 400 |
| `Consistency.Consistent` | back-end/src/tables/tables.controller.js:145-179 | the relation seat and finish maintain: each table points at nothing or at a stored "seated" reservation, no two tables point at the same one, every "seated" reservation is held by a table, and every record is stored under its own id |
| `Consistency.Apply` | back-end/src/tables/tables.controller.js:183-204 | serving one request keeps every record stored under its own id |
| `Consistency.Run` | back-end/src/tables/tables.controller.js:183-204 | serving a sequence of requests keeps every record stored under its own id |
| `Consistency.SeatKeepsConsistent` | back-end/src/tables/tables.controller.js:145-161 | seating keeps every table pointing at nothing or a seated reservation, no reservation held by two tables, and every seated reservation held |
| `Consistency.FinishKeepsConsistent` | back-end/src/tables/tables.controller.js:163-179 | finishing keeps the same relation |
| `Consistency.CreateKeepsConsistent` | back-end/src/tables/tables.controller.js:131-140 | creating a table without a truthy reservation id keeps the same relation |
| `Consistency.RunKeepsConsistent` | back-end/src/tables/tables.controller.js:183-204 | any sequence of seats, finishes and creates without a reservation id keeps the relation |
| `Consistency.FinishOnConsistent` | back-end/src/tables/tables.controller.js:70-83 | in a consistent store, finishing an occupied table always finds its reservation and marks it "finished" |
| `Consistency.CreateWithReferenceBreaksConsistency` | back-end/src/tables/tables.controller.js:137 | a create with a truthy reservation id can make two tables point at the same reservation |

## Left out

- `list` (lines 126-129): a pass-through read of all tables with no logic.
- The Express plumbing: `req`, `res`, `next`, `res.locals` as a mechanism (the
  lookup guards return the record instead), and the response writes,
  including the two `res.json` calls of the seat and finish handlers.
- `asyncErrorBoundary` and the errors a persistence call may raise: the
  error-to-response conversion is not part of this model, and every read and
  update is taken to succeed.
- The persistence services themselves: they become two maps, an update
  writes its columns over the record under its id, and an insert takes the next id of a
  counter. `tableExists` takes the table id as an integer rather than the
  URL's text.
- Concurrency and the non-atomic pair of writes in seat and finish: each
  request runs to completion with both writes applied.
- Transitions.Seat: the seat handler copies the whole body `data` into the
  table update (line 147), so a body that also carries `table_name` or
  `capacity` would overwrite those columns. The model ignores every seat-body
  field except `reservation_id`. Its table update keeps the columns it is not
  given, as an SQL update does.
- Fields of the body other than `table_name`, `capacity` and
  `reservation_id`.
- A body whose `data` is `null`: the default `data = {}` (line 7) applies
  only to a missing `data`, so `data[propertyName]` (line 8) would throw a
  `TypeError`. `Data` cannot express a `null` data object.
- Error message texts: an error is its status and a kind.
- Floating-point numbers: a non-integral number is one tag, and integral
  numbers are unbounded integers. Objects and arrays as body values are not
  modelled; a name that is an array or object with a `length` below 2 is
  truthy and would also be rejected by the name check.
- String lengths are counted in characters of `seq<char>`, not in UTF-16
  code units.
- Reservation ids given as text: the database might convert "3" to 3; here
  only an integral number addresses a stored reservation.
- A `finishReservation` whose read yielded `undefined` sends the persistence
  layer a reservation without an id; the model takes it to change no stored
  reservation.
- The `TypeError` that `tableNameIsValidLength` and the lookup guards would
  raise on `undefined` or `null` input: the chains never reach them with such
  input, and `TableNameIsValidLength` requires a readable value.
