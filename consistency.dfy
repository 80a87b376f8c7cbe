/**
 * The relation between tables and reservations that the seat and finish
 * chains maintain: a table points at nothing or at a stored "seated"
 * reservation, no two tables point at the same reservation, and every
 * "seated" reservation has a table pointing at it. Seating and finishing
 * keep it, and so does creating a table without a reservation id; creating a
 * table with one can break it.
 */
module Consistency {
  import opened Js
  import opened Records
  import opened Transitions

  /** A table's reservation reference is `null` or names a stored reservation
      that is "seated". */
  ghost predicate RefersToSeated(db: Db, ref: Value) {
    ref == Null || (ref.Int? && ref.n in db.reservations && db.reservations[ref.n].status == "seated")
  }

  /** Table `id` points at reservation `k`. */
  ghost predicate Holds(db: Db, id: int, k: int) {
    id in db.tables && db.tables[id].reservationId == Int(k)
  }

  ghost predicate Consistent(db: Db)
    ensures Consistent(db) ==> db.WellKeyed()
  {
    db.WellKeyed() &&
    (forall id :: id in db.tables ==> RefersToSeated(db, db.tables[id].reservationId)) &&
    (forall a, b :: a in db.tables && b in db.tables && a != b && db.tables[a].reservationId != Null ==>
       db.tables[a].reservationId != db.tables[b].reservationId) &&
    (forall k :: k in db.reservations && db.reservations[k].status == "seated" ==>
       exists id :: Holds(db, id, k))
  }

  /** One request to the controller. */
  datatype Request = CreateTable(data: Data) | SeatAt(tableId: int, data: Data) | FinishAt(tableId: int)

  /** A request that does not set a reservation by hand: every seat or finish,
      and a create whose reservation id is falsy. */
  predicate Plain(q: Request) {
    q.CreateTable? ==> !Truthy(q.data.reservationId)
  }

  function Apply(db: Db, q: Request): (s: Step)
    requires db.WellKeyed()
    ensures s.after.WellKeyed()
  {
    match q
    case CreateTable(d) => Create(db, d)
    case SeatAt(tableId, d) => Seat(db, tableId, d)
    case FinishAt(tableId) => Finish(db, tableId)
  }

  /** The stores after serving `qs` in order, each to completion. */
  function Run(db: Db, qs: seq<Request>): (r: Db)
    requires db.WellKeyed()
    ensures r.WellKeyed()
    decreases |qs|
  {
    if qs == [] then db else Run(Apply(db, qs[0]).after, qs[1..])
  }

  lemma SeatKeepsConsistent(db: Db, tableId: int, d: Data)
    requires Consistent(db)
    ensures Consistent(Seat(db, tableId, d).after)
  {
    var s := Seat(db, tableId, d);
    if s.result.Ok? {
      var after := s.after;
      var k := d.reservationId.n;
      // The reservation was not seated, so no table pointed at it before.
      assert forall id :: id in db.tables ==> db.tables[id].reservationId != Int(k);
      forall r | r in after.reservations && after.reservations[r].status == "seated"
        ensures exists id :: Holds(after, id, r)
      {
        if r == k {
          assert Holds(after, tableId, r);
        } else {
          var id :| Holds(db, id, r);
          assert id != tableId;
          assert Holds(after, id, r);
        }
      }
    }
  }

  lemma FinishKeepsConsistent(db: Db, tableId: int)
    requires Consistent(db)
    ensures Consistent(Finish(db, tableId).after)
  {
    var s := Finish(db, tableId);
    if s.result.Ok? {
      var after := s.after;
      var t := db.tables[tableId];
      var k := t.reservationId.n;
      assert RefersToSeated(db, t.reservationId);
      forall r | r in after.reservations && after.reservations[r].status == "seated"
        ensures exists id :: Holds(after, id, r)
      {
        assert r != k;
        var id :| Holds(db, id, r);
        assert id != tableId;
        assert Holds(after, id, r);
      }
    }
  }

  lemma CreateKeepsConsistent(db: Db, d: Data)
    requires Consistent(db)
    requires !Truthy(d.reservationId)
    ensures Consistent(Create(db, d).after)
  {
    var s := Create(db, d);
    if s.result.Ok? {
      var after := s.after;
      forall r | r in after.reservations && after.reservations[r].status == "seated"
        ensures exists id :: Holds(after, id, r)
      {
        var id :| Holds(db, id, r);
        assert Holds(after, id, r);
      }
    }
  }

  /** Serving any sequence of plain requests keeps the stores consistent. */
  lemma {:induction false} RunKeepsConsistent(db: Db, qs: seq<Request>)
    requires Consistent(db)
    requires forall i :: 0 <= i < |qs| ==> Plain(qs[i])
    ensures Consistent(Run(db, qs))
    decreases |qs|
  {
    if qs != [] {
      var q := qs[0];
      assert Plain(q);
      match q {
        case CreateTable(d) => CreateKeepsConsistent(db, d);
        case SeatAt(tableId, d) => SeatKeepsConsistent(db, tableId, d);
        case FinishAt(tableId) => FinishKeepsConsistent(db, tableId);
      }
      assert forall i :: 0 <= i < |qs[1..]| ==> Plain(qs[1..][i]) by {
        forall i | 0 <= i < |qs[1..]| ensures Plain(qs[1..][i]) {
          assert qs[1..][i] == qs[i + 1];
        }
      }
      RunKeepsConsistent(Apply(db, q).after, qs[1..]);
    }
  }

  /** In a consistent store, finishing an occupied table always reaches a
      stored reservation and marks it "finished". */
  lemma FinishOnConsistent(db: Db, tableId: int)
    requires Consistent(db)
    requires tableId in db.tables && db.tables[tableId].reservationId != Null
    ensures var k := db.tables[tableId].reservationId.n;
      k in db.reservations &&
      Finish(db, tableId).result.Ok? &&
      Finish(db, tableId).after.reservations[k].status == "finished"
  {
    assert RefersToSeated(db, db.tables[tableId].reservationId);
  }

  /** `create` checks nothing about a supplied reservation id: a new table
      can point at a reservation another table already holds. */
  lemma CreateWithReferenceBreaksConsistency(party: Reservation)
    requires party.reservationId == 1 && party.status == "seated"
    ensures var db := Db(map[1 := Table(1, Str("T1"), 4, Int(1))], map[1 := party], 2, AbsentUndefined);
      Consistent(db) && !Consistent(Create(db, Data(Str("T2"), Int(4), Int(1))).after)
  {
    var db := Db(map[1 := Table(1, Str("T1"), 4, Int(1))], map[1 := party], 2, AbsentUndefined);
    assert Holds(db, 1, 1);
    var after := Create(db, Data(Str("T2"), Int(4), Int(1))).after;
    assert after.tables[1].reservationId == after.tables[2].reservationId;
  }
}
