/**
 * The three guard chains of the table controller as functions of the state of
 * the two record stores: `create`, `seatReservation` and `finishReservation`.
 * Each runs its guards in the order of the controller's export table, stops at
 * the first failure, and otherwise applies the writes of the final handler.
 * The persistence services are the maps of `Db`; a read is a map lookup and
 * an update writes the columns it is given over the record stored under the
 * same id, keeping the others (the model hands it the whole record with the
 * changed columns).
 */
module Transitions {
  import opened Js
  import opened Records
  import opened Guards

  /** The two record stores. `nextTableId` is the id the table store assigns
      to the next inserted table; `absent` is what a reservation read yields
      when nothing matches. */
  datatype Db = Db(
    tables: map<int, Table>,
    reservations: map<int, Reservation>,
    nextTableId: int,
    absent: Absent)
  {
    /** Every record is stored under its own id, and no stored table id has
        been handed out yet. */
    ghost predicate WellKeyed() {
      (forall id :: id in tables ==> tables[id].tableId == id && id < nextTableId) &&
      (forall id :: id in reservations ==> reservations[id].reservationId == id)
    }
  }

  /** The response of one operation together with the stores afterwards. */
  datatype Step = Step(result: Result<Table>, after: Db)

  /** `reservationsService.read(key)`: only an integral key can address a
      stored reservation. */
  function ReadReservation(db: Db, key: Value): (l: Lookup)
    ensures l.Found? <==> key.Int? && key.n in db.reservations
    ensures l.Found? ==> l.reservation == db.reservations[key.n]
    ensures !l.Found? ==> l == db.absent.Result()
  {
    if key.Int? && key.n in db.reservations then Found(db.reservations[key.n])
    else db.absent.Result()
  }

  /** The validation part of the `create` chain: name present, capacity
      present, name length, capacity value. */
  function CreateChecks(d: Data): (c: Check)
    ensures c.Pass? <==>
      Truthy(d.tableName) && !(d.tableName.Str? && |d.tableName.s| < 2) &&
      d.capacity.Int? && d.capacity.n >= 1
    ensures c.Fail? ==> c.error.status == 400
  {
    var nameGiven := BodyDataHas(d, TableName);
    if nameGiven.Fail? then nameGiven else
    var capacityGiven := BodyDataHas(d, Capacity);
    if capacityGiven.Fail? then capacityGiven else
    var nameLength := TableNameIsValidLength(d.tableName);
    if nameLength.Fail? then nameLength else
    CapacityIsValidNumber(d.capacity)
  }

  /** The record `create` builds: the supplied name and capacity, and the
      supplied reservation id when it is truthy, else `null`. */
  function NewTable(tableId: int, d: Data): (t: Table)
    requires d.capacity.Int?
    ensures t.tableId == tableId && t.tableName == d.tableName && Value.Int(t.capacity) == d.capacity
    ensures Truthy(d.reservationId) ==> t.reservationId == d.reservationId
    ensures !Truthy(d.reservationId) ==> t.reservationId == Null
  {
    Table(tableId, d.tableName, d.capacity.n, Or(d.reservationId, Null))
  }

  /** The `create` chain: validation, then one insert under a fresh id. */
  function Create(db: Db, d: Data): (s: Step)
    requires db.WellKeyed()
    ensures s.after.WellKeyed()
    ensures s.result.Ok? <==> CreateChecks(d).Pass?
    ensures s.result.Err? ==> s.result.error == CreateChecks(d).error && s.after == db
    ensures s.result.Ok? ==>
      var t := s.result.value;
      t.tableId !in db.tables &&
      t == NewTable(t.tableId, d) &&
      s.after == db.(tables := db.tables[t.tableId := t], nextTableId := db.nextTableId + 1)
  {
    var checks := CreateChecks(d);
    if checks.Fail? then Step(Err(checks.error), db) else
    var t := NewTable(db.nextTableId, d);
    Step(Ok(t), db.(tables := db.tables[t.tableId := t], nextTableId := db.nextTableId + 1))
  }

  /** The `seatReservation` chain: six guards, then the table update (the
      body's `reservation_id` with the table's id) and the reservation update
      (the looked-up reservation with status "seated"). */
  function Seat(db: Db, tableId: int, d: Data): (s: Step)
    requires db.WellKeyed()
    ensures s.after.WellKeyed()
    ensures s.result.Err? ==> s.after == db
    ensures s.result.Ok? ==>
      tableId in db.tables && d.reservationId.Int? && d.reservationId.n in db.reservations &&
      var t := db.tables[tableId];
      var r := db.reservations[d.reservationId.n];
      t.reservationId == Null && r.status != "seated" && r.people <= t.capacity &&
      s.result.value == t.(reservationId := d.reservationId) &&
      s.after == db.(
        tables := db.tables[tableId := t.(reservationId := d.reservationId)],
        reservations := db.reservations[r.reservationId := r.(status := "seated")])
  {
    var idGiven := BodyDataHas(d, ReservationId);
    if idGiven.Fail? then Step(Err(idGiven.error), db) else
    var lookup := ReadReservation(db, d.reservationId);
    if !lookup.Found? then Step(Err(Error(404, ReservationNotFound)), db) else
    var r := lookup.reservation;
    if tableId !in db.tables then Step(Err(Error(404, TableNotFound)), db) else
    var t := db.tables[tableId];
    var notSeated := CheckIfSeated(r);
    if notSeated.Fail? then Step(Err(notSeated.error), db) else
    var free := CheckIfOccupied(t);
    if free.Fail? then Step(Err(free.error), db) else
    var fits := CheckCapacity(r, t);
    if fits.Fail? then Step(Err(fits.error), db) else
    var t' := t.(reservationId := d.reservationId);
    var r' := r.(status := "seated");
    Step(Ok(t'), db.(tables := db.tables[t'.tableId := t'], reservations := db.reservations[r'.reservationId := r']))
  }

  /** The `finishReservation` chain: three guards, then the table update (the
      table with `reservation_id` null) and the reservation update (the
      looked-up reservation with status "finished"). When the lookup yielded
      `undefined`, the reservation update carries no id and addresses no
      stored reservation. */
  function Finish(db: Db, tableId: int): (s: Step)
    requires db.WellKeyed()
    ensures s.after.WellKeyed()
    ensures s.result.Err? ==> s.after == db
    ensures s.result.Ok? ==>
      tableId in db.tables &&
      var t := db.tables[tableId];
      var lookup := ReadReservation(db, t.reservationId);
      t.reservationId != Null && !lookup.NullResult? &&
      s.result.value == t.(reservationId := Null) &&
      s.after.tables == db.tables[tableId := t.(reservationId := Null)] &&
      s.after.nextTableId == db.nextTableId && s.after.absent == db.absent &&
      (lookup.Found? ==>
        s.after.reservations ==
          db.reservations[lookup.reservation.reservationId := lookup.reservation.(status := "finished")]) &&
      (!lookup.Found? ==> s.after.reservations == db.reservations)
  {
    if tableId !in db.tables then Step(Err(Error(404, TableNotFound)), db) else
    var t := db.tables[tableId];
    var lookup := ReadReservation(db, t.reservationId);
    if lookup.NullResult? then Step(Err(Error(404, ReservationNotFound)), db) else
    var occupied := CheckIfNotOccupied(t);
    if occupied.Fail? then Step(Err(occupied.error), db) else
    var t' := t.(reservationId := Null);
    var reservations' :=
      if lookup.Found? then
        db.reservations[lookup.reservation.reservationId := lookup.reservation.(status := "finished")]
      else db.reservations;
    Step(Ok(t'), db.(tables := db.tables[t'.tableId := t'], reservations := reservations'))
  }
}
