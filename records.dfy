/**
 * The records the table controller works on: the request body's `data`
 * object, the stored tables and reservations, and the tagged errors the
 * guards report.
 */
module Records {
  import opened Js

  /** The three body fields the controller reads. */
  datatype Field = TableName | Capacity | ReservationId

  /** The `data` object of a request body. Fields the client did not send are
      `Undefined`; a body without `data` is `NoData`. */
  datatype Data = Data(tableName: Value, capacity: Value, reservationId: Value)
  {
    function Get(f: Field): Value {
      match f
      case TableName => tableName
      case Capacity => capacity
      case ReservationId => reservationId
    }
  }

  /** `const { data = {} } = req.body` when the body has no `data`. */
  const NoData: Data := Data(Undefined, Undefined, Undefined)

  /** A stored table. `reservationId` is `Null` while the table is free. */
  datatype Table = Table(tableId: int, tableName: Value, capacity: int, reservationId: Value)

  /** A stored reservation. `details` stands for the columns (names, phone,
      date, time) that this controller copies but never inspects. */
  datatype Reservation = Reservation(
    reservationId: int,
    people: int,
    status: string,
    details: map<string, string>)

  /** What a guard reports, besides its HTTP status. */
  datatype ErrorKind =
    | Missing(field: Field)
    | NameTooShort
    | BadCapacity
    | TableNotFound
    | ReservationNotFound
    | AlreadySeated
    | Occupied
    | OverCapacity
    | NotOccupied

  /** The `{ status, message }` object a guard passes to `next`, with the
      message reduced to its kind. */
  datatype Error = Error(status: int, kind: ErrorKind)

  /** The outcome of one guard: call `next()` or `next(error)`. */
  datatype Check = Pass | Fail(error: Error)

  datatype Result<T> = Ok(value: T) | Err(error: Error)

  /** What the reservation persistence layer yields for a read. A miss comes
      back as `undefined` or as `null`, depending on that layer. */
  datatype Lookup = Found(reservation: Reservation) | UndefinedResult | NullResult

  /** Which of the two miss results the persistence layer produces. */
  datatype Absent = AbsentUndefined | AbsentNull
  {
    function Result(): (l: Lookup)
      ensures !l.Found?
      ensures l.NullResult? <==> this == AbsentNull
    {
      if this == AbsentNull then NullResult else UndefinedResult
    }
  }
}
