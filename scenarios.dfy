/** Sequences of requests against one table, as a client of the JSON API
    sees them. */
module Scenarios {
  import opened Schema
  import opened Table
  import opened JsonApi

  /** A body holding just a date. */
  function DateOnly(date: string): (body: Body)
    ensures body.Some? && body.value.date == Given(date) && !Falsy(body)
  {
    Some(JsonObject(Given(date), map[], false))
  }

  /** Creating a bill, deleting it and creating another: the second bill
      never gets the first one's id back (AUTOINCREMENT). */
  method DeletedIdNotReused(db: BillTable, first: string, second: string) returns (id1: nat, id2: nat)
    requires db.Valid() && !DateHeld(db.rows, first) && !DateHeld(db.rows, second)
    modifies db
    ensures db.Valid()
    ensures id1 < id2
    ensures id1 !in db.rows && id2 in db.rows && db.rows[id2].date == second
  {
    ghost var before := db.rows;
    var r1 := CreateBill(db, DateOnly(first));
    id1 := r1.value.id;
    assert id1 !in before;
    var d := DeleteBill(db, id1);
    assert db.rows == before;
    var r2 := CreateBill(db, DateOnly(second));
    id2 := r2.value.id;
  }

  /** A second bill with a date already taken is refused and changes
      nothing; the first stays as it was created. */
  method DuplicateCreateRefused(db: BillTable, date: string) returns (first: Reply<Bill>, second: Reply<Bill>)
    requires db.Valid() && !DateHeld(db.rows, date)
    modifies db
    ensures db.Valid()
    ensures first.Success? && first.status == 201 && first.value.date == date
    ensures second == Failure(400, DuplicateDate)
    ensures first.value.id in db.rows && db.rows[first.value.id] == first.value
  {
    first := CreateBill(db, DateOnly(date));
    assert DateHeld(db.rows, date) by {
      assert db.rows[first.value.id].date == date;
    }
    second := CreateBill(db, DateOnly(date));
  }

  /** Once deleted, a bill is not found. */
  method DeleteThenGet(db: BillTable, id: nat) returns (deleted: Reply<string>, got: Reply<Bill>)
    requires db.Valid() && id in db.rows
    modifies db
    ensures db.Valid()
    ensures deleted == Success(200, BillDeleted)
    ensures got == Failure(404, BillNotFound)
  {
    deleted := DeleteBill(db, id);
    got := GetBill(db, id);
  }
}
