/**
 * What the three chains promise, stated over the specification functions of
 * module Transitions: which guard decides the answer, the capacity boundary,
 * the records written on success, and the Free <-> Occupied transitions of a
 * table.
 */
module Properties {
  import opened Js
  import opened Records
  import opened Guards
  import opened Transitions

  // ---------------------------------------------------------------- create

  /** The first failing validation decides the 400 error of `create`:
      name present, capacity present, name length, capacity value. */
  lemma CreateGuardOrder(db: Db, d: Data)
    requires db.WellKeyed()
    ensures !Truthy(d.tableName) ==>
      Create(db, d).result == Err(Error(400, Missing(TableName)))
    ensures Truthy(d.tableName) && !Truthy(d.capacity) ==>
      Create(db, d).result == Err(Error(400, Missing(Capacity)))
    ensures Truthy(d.tableName) && Truthy(d.capacity) && d.tableName.Str? && |d.tableName.s| < 2 ==>
      Create(db, d).result == Err(Error(400, NameTooShort))
    ensures Truthy(d.tableName) && Truthy(d.capacity) && !(d.tableName.Str? && |d.tableName.s| < 2) &&
            !(d.capacity.Int? && d.capacity.n >= 1) ==>
      Create(db, d).result == Err(Error(400, BadCapacity))
  {
  }

  /** `create` succeeds exactly when the name is truthy and not a string
      shorter than two, and the capacity is an integer of at least one; the
      stored table then carries the supplied name and capacity, reads back
      from the table store, and is free unless a truthy reservation id was
      supplied. Nothing else is stored or changed. */
  lemma CreateStoresSupplied(db: Db, d: Data)
    requires db.WellKeyed()
    ensures Create(db, d).result.Ok? <==>
      Truthy(d.tableName) && !(d.tableName.Str? && |d.tableName.s| < 2) &&
      d.capacity.Int? && d.capacity.n > 0
    ensures Create(db, d).result.Ok? ==>
      var t := Create(db, d).result.value;
      var after := Create(db, d).after;
      t.tableId !in db.tables && t.tableId in after.tables && after.tables[t.tableId] == t &&
      t.tableName == d.tableName && Value.Int(t.capacity) == d.capacity &&
      t.reservationId == (if Truthy(d.reservationId) then d.reservationId else Null) &&
      after.tables.Keys == db.tables.Keys + {t.tableId} &&
      (forall id :: id in db.tables ==> after.tables[id] == db.tables[id]) &&
      after.reservations == db.reservations
  {
  }

  /** The boundaries of `create`'s validation. A capacity of 0 is falsy, so
      it is reported as missing; a negative or fractional capacity is
      invalid; 1 is accepted. A name of length 1 is too short, length 2 is
      accepted, and a numeric name has no length and is accepted. */
  lemma CreateBoundaries(db: Db)
    requires db.WellKeyed()
    ensures Create(db, Data(Str("T1"), Int(0), Undefined)).result == Err(Error(400, Missing(Capacity)))
    ensures Create(db, Data(Str("T1"), Int(-1), Undefined)).result == Err(Error(400, BadCapacity))
    ensures Create(db, Data(Str("T1"), NonInteger, Undefined)).result == Err(Error(400, BadCapacity))
    ensures Create(db, Data(Str("T1"), Str("4"), Undefined)).result == Err(Error(400, BadCapacity))
    ensures Create(db, Data(Str("T1"), Int(1), Undefined)).result.Ok?
    ensures Create(db, Data(Str("T"), Int(1), Undefined)).result == Err(Error(400, NameTooShort))
    ensures Create(db, Data(Str(""), Int(1), Undefined)).result == Err(Error(400, Missing(TableName)))
    ensures Create(db, Data(Int(7), Int(1), Undefined)).result.Ok?
    ensures Create(db, NoData).result == Err(Error(400, Missing(TableName)))
  {
  }

  // ------------------------------------------------------------------ seat

  /** All six guards of `seatReservation` pass. */
  ghost predicate SeatAllowed(db: Db, tableId: int, d: Data) {
    Truthy(d.reservationId) &&
    d.reservationId.Int? && d.reservationId.n in db.reservations &&
    tableId in db.tables &&
    db.reservations[d.reservationId.n].status != "seated" &&
    db.tables[tableId].reservationId == Null &&
    db.reservations[d.reservationId.n].people <= db.tables[tableId].capacity
  }

  /** The first failing guard decides the answer of `seatReservation`:
      missing id (400), unknown reservation (404), unknown table (404),
      already seated (400), table occupied (400), party too large (400). */
  lemma SeatGuardOrder(db: Db, tableId: int, d: Data)
    requires db.WellKeyed()
    ensures !Truthy(d.reservationId) ==>
      Seat(db, tableId, d).result == Err(Error(400, Missing(ReservationId)))
    ensures Truthy(d.reservationId) && !(d.reservationId.Int? && d.reservationId.n in db.reservations) ==>
      Seat(db, tableId, d).result == Err(Error(404, ReservationNotFound))
    ensures Truthy(d.reservationId) && d.reservationId.Int? && d.reservationId.n in db.reservations ==>
      var r := db.reservations[d.reservationId.n];
      (tableId !in db.tables ==>
        Seat(db, tableId, d).result == Err(Error(404, TableNotFound))) &&
      (tableId in db.tables && r.status == "seated" ==>
        Seat(db, tableId, d).result == Err(Error(400, AlreadySeated))) &&
      (tableId in db.tables && r.status != "seated" && db.tables[tableId].reservationId != Null ==>
        Seat(db, tableId, d).result == Err(Error(400, Occupied))) &&
      (tableId in db.tables && r.status != "seated" && db.tables[tableId].reservationId == Null &&
       r.people > db.tables[tableId].capacity ==>
        Seat(db, tableId, d).result == Err(Error(400, OverCapacity)))
  {
  }

  /** `seatReservation` succeeds exactly when all six guards pass, and then
      writes exactly two records: the table now points at the reservation,
      which is now "seated"; every other table and reservation is as it was. */
  lemma SeatSucceedsIff(db: Db, tableId: int, d: Data)
    requires db.WellKeyed()
    ensures Seat(db, tableId, d).result.Ok? <==> SeatAllowed(db, tableId, d)
    ensures Seat(db, tableId, d).result.Ok? ==>
      var after := Seat(db, tableId, d).after;
      var k := d.reservationId.n;
      after.tables.Keys == db.tables.Keys && after.reservations.Keys == db.reservations.Keys &&
      after.tables[tableId].tableId == tableId &&
      after.tables[tableId].reservationId == Int(k) &&
      after.tables[tableId].capacity == db.tables[tableId].capacity &&
      after.tables[tableId].tableName == db.tables[tableId].tableName &&
      after.reservations[k] == db.reservations[k].(status := "seated") &&
      (forall id :: id in db.tables && id != tableId ==> after.tables[id] == db.tables[id]) &&
      (forall id :: id in db.reservations && id != k ==> after.reservations[id] == db.reservations[id])
  {
  }

  /** The capacity boundary: once the other guards pass, a party exactly as
      large as the table is seated and only a larger one is refused. */
  lemma SeatCapacityBoundary(db: Db, tableId: int, k: int)
    requires db.WellKeyed()
    requires k != 0 && k in db.reservations && tableId in db.tables
    requires db.reservations[k].status != "seated" && db.tables[tableId].reservationId == Null
    ensures Seat(db, tableId, Data(Undefined, Undefined, Int(k))).result.Ok? <==>
      db.reservations[k].people <= db.tables[tableId].capacity
    ensures db.reservations[k].people == db.tables[tableId].capacity ==>
      Seat(db, tableId, Data(Undefined, Undefined, Int(k))).result.Ok?
    ensures db.reservations[k].people == db.tables[tableId].capacity + 1 ==>
      Seat(db, tableId, Data(Undefined, Undefined, Int(k))).result == Err(Error(400, OverCapacity))
  {
  }

  /** Once a table is seated, seating it again fails without changing
      anything: with the same reservation because it is now "seated", with
      any other known reservation that is not seated because the table is
      occupied. */
  lemma SeatTwiceFails(db: Db, tableId: int, d: Data, d2: Data)
    requires db.WellKeyed()
    requires Seat(db, tableId, d).result.Ok?
    ensures var after := Seat(db, tableId, d).after;
      Seat(after, tableId, d).result == Err(Error(400, AlreadySeated)) &&
      Seat(after, tableId, d).after == after
    ensures var after := Seat(db, tableId, d).after;
      d2.reservationId.Int? && d2.reservationId.n != 0 && d2.reservationId.n in after.reservations &&
      after.reservations[d2.reservationId.n].status != "seated" ==>
        Seat(after, tableId, d2).result == Err(Error(400, Occupied)) &&
        Seat(after, tableId, d2).after == after
  {
  }

  // ---------------------------------------------------------------- finish

  /** On an occupied table whose reservation is stored, `finishReservation`
      frees the table, leaving its other fields alone, and marks that
      reservation "finished", leaving its other fields alone; nothing else
      changes. */
  lemma FinishOccupied(db: Db, tableId: int, k: int)
    requires db.WellKeyed()
    requires tableId in db.tables && db.tables[tableId].reservationId == Int(k) && k in db.reservations
    ensures Finish(db, tableId).result == Ok(db.tables[tableId].(reservationId := Null))
    ensures var after := Finish(db, tableId).after;
      after.tables == db.tables[tableId := db.tables[tableId].(reservationId := Null)] &&
      after.reservations == db.reservations[k := db.reservations[k].(status := "finished")] &&
      after.reservations[k].people == db.reservations[k].people &&
      after.reservations[k].details == db.reservations[k].details
  {
  }

  /** On a free table `finishReservation` fails and changes nothing. The
      lookup of a `null` reservation id misses; when the miss reads as
      `undefined` the lookup guard lets it through and the answer is the
      400 "not occupied", when it reads as `null` it is the 404. */
  lemma FinishFree(db: Db, tableId: int)
    requires db.WellKeyed()
    requires tableId in db.tables && db.tables[tableId].reservationId == Null
    ensures Finish(db, tableId).after == db
    ensures db.absent == AbsentUndefined ==> Finish(db, tableId).result == Err(Error(400, NotOccupied))
    ensures db.absent == AbsentNull ==> Finish(db, tableId).result == Err(Error(404, ReservationNotFound))
  {
  }

  /** Which guard decides the answer of `finishReservation`: an unknown table
      is 404, a `null` reservation read is 404, a free table is 400; and an
      occupied table whose read is not `null` finishes, even when the read
      missed with `undefined`. */
  lemma FinishGuardOrder(db: Db, tableId: int)
    requires db.WellKeyed()
    ensures tableId !in db.tables ==>
      Finish(db, tableId).result == Err(Error(404, TableNotFound))
    ensures tableId in db.tables && ReadReservation(db, db.tables[tableId].reservationId).NullResult? ==>
      Finish(db, tableId).result == Err(Error(404, ReservationNotFound))
    ensures tableId in db.tables && !ReadReservation(db, db.tables[tableId].reservationId).NullResult? &&
            db.tables[tableId].reservationId == Null ==>
      Finish(db, tableId).result == Err(Error(400, NotOccupied))
    ensures Finish(db, tableId).result.Ok? <==>
      tableId in db.tables && db.tables[tableId].reservationId != Null &&
      !ReadReservation(db, db.tables[tableId].reservationId).NullResult?
  {
  }

  /** A table whose reservation id names no stored reservation: when a miss
      reads as `undefined`, finishing frees the table and writes no
      reservation; when it reads as `null`, it is the 404. */
  lemma FinishDangling(db: Db, tableId: int)
    requires db.WellKeyed()
    requires tableId in db.tables && db.tables[tableId].reservationId != Null
    requires !(db.tables[tableId].reservationId.Int? && db.tables[tableId].reservationId.n in db.reservations)
    ensures db.absent == AbsentUndefined ==>
      Finish(db, tableId).result == Ok(db.tables[tableId].(reservationId := Null)) &&
      Finish(db, tableId).after == db.(tables := db.tables[tableId := db.tables[tableId].(reservationId := Null)])
    ensures db.absent == AbsentNull ==>
      Finish(db, tableId).result == Err(Error(404, ReservationNotFound)) &&
      Finish(db, tableId).after == db
  {
  }

  /** Finishing twice in a row: the second call fails and changes nothing. */
  lemma FinishTwiceFails(db: Db, tableId: int)
    requires db.WellKeyed()
    requires Finish(db, tableId).result.Ok?
    ensures var after := Finish(db, tableId).after;
      Finish(after, tableId).result.Err? && Finish(after, tableId).after == after
    ensures var after := Finish(db, tableId).after;
      db.absent == AbsentUndefined ==> Finish(after, tableId).result == Err(Error(400, NotOccupied))
  {
    FinishFree(Finish(db, tableId).after, tableId);
  }

  // ----------------------------------------------------- Free <-> Occupied

  /** Seating moves a table from Free to Occupied and finishing it again
      restores the table exactly, leaving its reservation "finished". */
  lemma SeatThenFinish(db: Db, tableId: int, d: Data)
    requires db.WellKeyed()
    requires Seat(db, tableId, d).result.Ok?
    ensures db.tables[tableId].reservationId == Null
    ensures Seat(db, tableId, d).after.tables[tableId].reservationId != Null
    ensures var seated := Seat(db, tableId, d).after;
      var k := d.reservationId.n;
      Finish(seated, tableId).result.Ok? &&
      Finish(seated, tableId).after.tables == db.tables &&
      Finish(seated, tableId).after.reservations == db.reservations[k := db.reservations[k].(status := "finished")]
  {
    var seated := Seat(db, tableId, d).after;
    var k := d.reservationId.n;
    FinishOccupied(seated, tableId, k);
    assert db.tables[tableId].(reservationId := d.reservationId).(reservationId := Null) == db.tables[tableId];
  }

  /** Only "seated" blocks seating: a reservation that has been seated and
      finished can be seated again at any free table that fits it. */
  lemma FinishedReservationCanBeReseated(db: Db, tableId: int, otherTable: int, d: Data)
    requires db.WellKeyed()
    requires Seat(db, tableId, d).result.Ok?
    requires otherTable in db.tables && db.tables[otherTable].reservationId == Null
    requires db.reservations[d.reservationId.n].people <= db.tables[otherTable].capacity
    ensures var finished := Finish(Seat(db, tableId, d).after, tableId).after;
      finished.reservations[d.reservationId.n].status == "finished" &&
      Seat(finished, otherTable, d).result.Ok?
  {
    SeatThenFinish(db, tableId, d);
  }

  /** A whole evening for one table of four and a party of four: create the
      table, seat the party, finish, and finish again. */
  lemma EndToEnd(party: Reservation)
    requires party.reservationId == 1 && party.people == 4 && party.status == "booked"
    ensures var db0 := Db(map[], map[1 := party], 1, AbsentUndefined);
      var created := Create(db0, Data(Str("Bar #1"), Int(4), Undefined));
      created.result == Ok(Table(1, Str("Bar #1"), 4, Null)) &&
      var seated := Seat(created.after, 1, Data(Undefined, Undefined, Int(1)));
      seated.result == Ok(Table(1, Str("Bar #1"), 4, Int(1))) &&
      seated.after.reservations[1].status == "seated" &&
      var finished := Finish(seated.after, 1);
      finished.result == Ok(Table(1, Str("Bar #1"), 4, Null)) &&
      finished.after.tables[1].reservationId == Null &&
      finished.after.reservations[1].status == "finished" &&
      Finish(finished.after, 1).result == Err(Error(400, NotOccupied))
  {
  }
}
