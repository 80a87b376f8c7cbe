/**
 * The pure guards of the table controller: each inspects the request body or
 * an already looked-up record and either passes or fails with a 400 error.
 */
module Guards {
  import opened Js
  import opened Records

  /** `bodyDataHas(field)`: the body's `data` must hold a truthy value under
      `field`, so `0`, `""` and `null` count as missing. */
  function BodyDataHas(d: Data, f: Field): (c: Check)
    ensures c.Pass? <==> Truthy(d.Get(f))
    ensures c.Fail? ==> c.error == Error(400, Missing(f))
  {
    if Truthy(d.Get(f)) then Pass else Fail(Error(400, Missing(f)))
  }

  /** `tableNameIsValidLength`: only a string name shorter than two characters
      fails; a name without a length (a number, `true`) passes. Reading
      `.length` of `undefined` or `null` would throw, which the chain rules
      out by running `bodyDataHas("table_name")` first. */
  function TableNameIsValidLength(name: Value): (c: Check)
    requires !name.Undefined? && !name.Null?
    ensures c.Fail? <==> name.Str? && |name.s| < 2
    ensures c.Fail? ==> c.error == Error(400, NameTooShort)
  {
    if LengthBelow(name, 2) then Fail(Error(400, NameTooShort)) else Pass
  }

  /** `capacityIsValidNumber`: fails when `capacity <= 0` or
      `!Number.isInteger(capacity)`. For a value that is not an integral
      number the second test already fails, so the outcome never depends on
      how `<=` coerces it. */
  function CapacityIsValidNumber(capacity: Value): (c: Check)
    ensures c.Pass? <==> capacity.Int? && capacity.n >= 1
    ensures c.Fail? ==> c.error == Error(400, BadCapacity)
  {
    if !IsInteger(capacity) || capacity.n <= 0 then Fail(Error(400, BadCapacity)) else Pass
  }

  /** `checkCapacity`: the party must fit; a party exactly as large as the
      table fits. */
  function CheckCapacity(r: Reservation, t: Table): (c: Check)
    ensures c.Pass? <==> r.people <= t.capacity
    ensures c.Fail? ==> c.error == Error(400, OverCapacity)
  {
    if r.people > t.capacity then Fail(Error(400, OverCapacity)) else Pass
  }

  /** `checkIfOccupied`: seating needs a table whose reservation is literally
      `null`. */
  function CheckIfOccupied(t: Table): (c: Check)
    ensures c.Pass? <==> t.reservationId == Null
    ensures c.Fail? ==> c.error == Error(400, Occupied)
  {
    if t.reservationId != Null then Fail(Error(400, Occupied)) else Pass
  }

  /** `checkIfNotOccupied`: finishing needs a table whose reservation is not
      `null`. */
  function CheckIfNotOccupied(t: Table): (c: Check)
    ensures c.Pass? <==> t.reservationId != Null
    ensures c.Fail? ==> c.error == Error(400, NotOccupied)
  {
    if t.reservationId == Null then Fail(Error(400, NotOccupied)) else Pass
  }

  /** `checkIfSeated`: only the status "seated" blocks seating; a "finished"
      or "booked" reservation passes. */
  function CheckIfSeated(r: Reservation): (c: Check)
    ensures c.Pass? <==> r.status != "seated"
    ensures c.Fail? ==> c.error == Error(400, AlreadySeated)
  {
    if r.status == "seated" then Fail(Error(400, AlreadySeated)) else Pass
  }
}
