/**
 * The table controller over a mutable pair of record stores. The lookup
 * guards read a store and hand the record on (where the controller puts it in
 * `res.locals`); each chain runs its guards one after another, returns at the
 * first failure, and otherwise performs its writes in the controller's order.
 */
module Store {
  import opened Js
  import opened Records
  import opened Guards
  import opened Transitions

  class TableStore {
    var tables: map<int, Table>
    var reservations: map<int, Reservation>
    var nextTableId: int
    const absent: Absent

    /** The stores as a value, for the specification of each chain. */
    function State(): Db
      reads this
    {
      Db(tables, reservations, nextTableId, absent)
    }

    ghost predicate Valid()
      reads this
    {
      State().WellKeyed()
    }

    constructor (tables0: map<int, Table>, reservations0: map<int, Reservation>, nextTableId0: int, absent0: Absent)
      requires Db(tables0, reservations0, nextTableId0, absent0).WellKeyed()
      ensures Valid()
      ensures State() == Db(tables0, reservations0, nextTableId0, absent0)
    {
      tables := tables0;
      reservations := reservations0;
      nextTableId := nextTableId0;
      absent := absent0;
    }

    /** `tableExists`: the table stored under `tableId`, or 404. */
    method TableExists(tableId: int) returns (r: Result<Table>)
      ensures r.Ok? <==> tableId in tables
      ensures r.Ok? ==> r.value == tables[tableId]
      ensures r.Err? ==> r.error == Error(404, TableNotFound)
    {
      if tableId in tables {
        r := Ok(tables[tableId]);
      } else {
        r := Err(Error(404, TableNotFound));
      }
    }

    /** `checkReservationFromBody`: the reservation the body's
        `reservation_id` names, or 404 when the read yields a falsy result
        (either kind of miss). */
    method CheckReservationFromBody(d: Data) returns (r: Result<Reservation>)
      ensures r.Ok? <==> d.reservationId.Int? && d.reservationId.n in reservations
      ensures r.Ok? ==> r.value == reservations[d.reservationId.n]
      ensures r.Err? ==> r.error == Error(404, ReservationNotFound)
    {
      var lookup := ReadReservation(State(), d.reservationId);
      if lookup.Found? {
        r := Ok(lookup.reservation);
      } else {
        r := Err(Error(404, ReservationNotFound));
      }
    }

    /** `checkReservationFromTable`: rejects only a literal `null` read
        result, so a miss that yields `undefined` is handed on as such. */
    method CheckReservationFromTable(t: Table) returns (r: Result<Lookup>)
      ensures r.Err? <==> absent == AbsentNull && !(t.reservationId.Int? && t.reservationId.n in reservations)
      ensures r.Err? ==> r.error == Error(404, ReservationNotFound)
      ensures r.Ok? && r.value.Found? <==> t.reservationId.Int? && t.reservationId.n in reservations
      ensures r.Ok? && r.value.Found? ==> r.value.reservation == reservations[t.reservationId.n]
      ensures r.Ok? ==> r.value == ReadReservation(State(), t.reservationId)
    {
      var lookup := ReadReservation(State(), t.reservationId);
      if lookup != NullResult {
        r := Ok(lookup);
      } else {
        r := Err(Error(404, ReservationNotFound));
      }
    }

    /** `service.update` for tables: stores `t` under its own id. */
    method UpdateTable(t: Table)
      requires Valid() && t.tableId in tables
      modifies this
      ensures Valid()
      ensures State() == old(State()).(tables := old(tables)[t.tableId := t])
    {
      tables := tables[t.tableId := t];
    }

    /** `reservationsService.update`: stores `r` under its own id. */
    method UpdateReservation(r: Reservation)
      requires Valid()
      modifies this
      ensures Valid()
      ensures State() == old(State()).(reservations := old(reservations)[r.reservationId := r])
    {
      reservations := reservations[r.reservationId := r];
    }

    /** The `create` chain. */
    method Create(d: Data) returns (r: Result<Table>)
      requires Valid()
      modifies this
      ensures Valid()
      ensures Step(r, State()) == Transitions.Create(old(State()), d)
    {
      var c := BodyDataHas(d, TableName);
      if c.Fail? { return Err(c.error); }
      c := BodyDataHas(d, Capacity);
      if c.Fail? { return Err(c.error); }
      c := TableNameIsValidLength(d.tableName);
      if c.Fail? { return Err(c.error); }
      c := CapacityIsValidNumber(d.capacity);
      if c.Fail? { return Err(c.error); }
      var t := NewTable(nextTableId, d);
      tables := tables[t.tableId := t];
      nextTableId := nextTableId + 1;
      r := Ok(t);
    }

    /** The `seatReservation` chain. */
    method SeatReservation(tableId: int, d: Data) returns (r: Result<Table>)
      requires Valid()
      modifies this
      ensures Valid()
      ensures Step(r, State()) == Seat(old(State()), tableId, d)
    {
      var c := BodyDataHas(d, ReservationId);
      if c.Fail? { return Err(c.error); }
      var reservation := CheckReservationFromBody(d);
      if reservation.Err? { return Err(reservation.error); }
      var table := TableExists(tableId);
      if table.Err? { return Err(table.error); }
      c := CheckIfSeated(reservation.value);
      if c.Fail? { return Err(c.error); }
      c := CheckIfOccupied(table.value);
      if c.Fail? { return Err(c.error); }
      c := CheckCapacity(reservation.value, table.value);
      if c.Fail? { return Err(c.error); }
      var updatedTable := table.value.(reservationId := d.reservationId);
      UpdateTable(updatedTable);
      UpdateReservation(reservation.value.(status := "seated"));
      r := Ok(updatedTable);
    }

    /** The `finishReservation` chain. */
    method FinishReservation(tableId: int) returns (r: Result<Table>)
      requires Valid()
      modifies this
      ensures Valid()
      ensures Step(r, State()) == Finish(old(State()), tableId)
    {
      var table := TableExists(tableId);
      if table.Err? { return Err(table.error); }
      var reservation := CheckReservationFromTable(table.value);
      if reservation.Err? { return Err(reservation.error); }
      var c := CheckIfNotOccupied(table.value);
      if c.Fail? { return Err(c.error); }
      var updatedTable := table.value.(reservationId := Null);
      UpdateTable(updatedTable);
      if reservation.value.Found? {
        UpdateReservation(reservation.value.reservation.(status := "finished"));
      }
      r := Ok(updatedTable);
    }
  }
}
