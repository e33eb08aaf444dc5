/** The JSON API (backend/app.py): the `/api/bills` handlers as statements
    against the shared `bills` table, each answering a status and a value
    or an error message. */
module JsonApi {
  import opened Schema
  import opened Table

  /** One member of a JSON object: not sent, sent as `null`, or sent. */
  datatype JsonField<+T> = Absent | Null | Given(value: T)

  /** A JSON object body. `amounts` holds the numeric members that were
      sent (`None` for `null`); `otherKeys` says whether any member outside
      the nine columns was sent. */
  datatype JsonObject = JsonObject(date: JsonField<string>, amounts: map<Field, Option<real>>, otherKeys: bool)
  {
    /** `{}`, the one object Python treats as false. */
    predicate IsEmpty()
    {
      date.Absent? && amounts == map[] && !otherKeys
    }

    /** `data.get("date")`: a missing member reads as `None` like `null`. */
    function DateOrNull(): (d: Option<string>)
      ensures d.Some? <==> date.Given?
      ensures d.Some? ==> d.value == date.value
    {
      if date.Given? then Some(date.value) else None
    }
  }

  /** `request.get_json()`: an object, or `None` for a `null` body. */
  type Body = Option<JsonObject>

  /** `not data`. */
  predicate Falsy(body: Body)
  {
    body.None? || body.value.IsEmpty()
  }

  /** A response: a status with its JSON value, or a status with
      `{"error": message}`. */
  datatype Reply<+T> = Success(status: nat, value: T) | Failure(status: nat, error: string)

  const DateRequired: string := "Date is required"
  const DuplicateDate: string := "A bill with this date already exists"
  const BillNotFound: string := "Bill not found"
  const NoDataProvided: string := "No data provided"
  const BillDeleted: string := "Bill deleted successfully"

  /** The eight `data.get(<column>, 0)` values a create or an update
      writes: what was sent (NULL for `null`), 0 for a member not sent. */
  function BodyAmounts(obj: JsonObject): (a: Amounts)
    ensures forall f :: a.Get(f) == if f in obj.amounts then obj.amounts[f] else Some(0.0)
  {
    Tabulate(f => if f in obj.amounts then obj.amounts[f] else Some(0.0))
  }

  /** What a create or an update writes for column `f`: the number sent as
      sent, a `null` as NULL, and 0 for a member the body leaves out, so an
      update resets that column rather than keeping the stored value. */
  lemma BodyAmountsOmitted(obj: JsonObject, stored: Amounts, f: Field)
    ensures f in obj.amounts && obj.amounts[f].Some? ==> BodyAmounts(obj).Get(f) == Some(obj.amounts[f].value)
    ensures f in obj.amounts && obj.amounts[f].None? ==> BodyAmounts(obj).Get(f).None?
    ensures f !in obj.amounts ==> BodyAmounts(obj).Get(f) == Some(0.0)
    ensures f !in obj.amounts && stored.Get(f) != Some(0.0) ==> BodyAmounts(obj).Get(f) != stored.Get(f)
  {
  }

  /** `get_bills()`: every bill once, latest date first, with status 200. */
  method GetBills(db: BillTable) returns (reply: Reply<seq<Bill>>)
    requires db.Valid()
    ensures reply.Success? && reply.status == 200
    ensures |reply.value| == |db.rows|
    ensures StrictlyByDateDesc(reply.value)
    ensures forall i | 0 <= i < |reply.value| :: reply.value[i].id in db.rows && db.rows[reply.value[i].id] == reply.value[i]
    ensures forall id | id in db.rows :: db.rows[id] in reply.value
  {
    var bills := db.SelectByDateDesc(None);
    reply := Success(200, bills);
  }

  /** `get_bill(bill_id)`: the stored bill, or a 404. */
  method GetBill(db: BillTable, id: nat) returns (reply: Reply<Bill>)
    requires db.Valid()
    ensures id in db.rows ==> reply == Success(200, db.rows[id])
    ensures id !in db.rows ==> reply == Failure(404, BillNotFound)
  {
    var bill := db.SelectById(id);
    if bill.None? {
      return Failure(404, BillNotFound);
    }
    reply := Success(200, bill.value);
  }

  /** `create_bill()`. Without a body or a `"date"` member: 400 before the
      table is touched. A `null` date breaks NOT NULL and a date some bill
      has breaks UNIQUE: 400, nothing written. Otherwise one bill is added,
      with an id above every id ever assigned, and returned with 201. */
  method CreateBill(db: BillTable, body: Body) returns (reply: Reply<Bill>)
    requires db.Valid()
    modifies db
    ensures db.Valid()
    ensures body.None? || body.value.date.Absent? ==> reply == Failure(400, DateRequired) && unchanged(db)
    ensures body.Some? && body.value.date.Null? ==> reply == Failure(400, DuplicateDate) && unchanged(db)
    ensures body.Some? && body.value.date.Given? && DateHeld(old(db.rows), body.value.date.value) ==>
      reply == Failure(400, DuplicateDate) && unchanged(db)
    ensures body.Some? && body.value.date.Given? && !DateHeld(old(db.rows), body.value.date.value) ==>
      && db.lastId == old(db.lastId) + 1
      && db.clock == old(db.clock) + 1
      && reply == Success(201, Bill(db.lastId, body.value.date.value, BodyAmounts(body.value), db.clock, db.clock))
      && db.rows == old(db.rows)[db.lastId := reply.value]
  {
    if body.None? || !(body.value.date.Given? || body.value.date.Null?) {
      return Failure(400, DateRequired);
    }
    var obj := body.value;
    var r := db.Insert(obj.DateOrNull(), BodyAmounts(obj));
    match r
    case IntegrityError(_) =>
      reply := Failure(400, DuplicateDate);
    case Done(newId) =>
      var bill := db.SelectById(newId);
      reply := Success(201, bill.value);
  }

  /** `update_bill(bill_id)`. An empty body: 400; an unknown id: 404;
      neither touches the table. A date missing or `null` breaks NOT NULL,
      a date another bill has breaks UNIQUE: 400, nothing written.
      Otherwise the bill is rewritten from the body, keeping its id and
      creation time, and returned re-read with 200. */
  method UpdateBill(db: BillTable, id: nat, body: Body) returns (reply: Reply<Bill>)
    requires db.Valid()
    modifies db
    ensures db.Valid()
    ensures Falsy(body) ==> reply == Failure(400, NoDataProvided) && unchanged(db)
    ensures !Falsy(body) && id !in old(db.rows) ==> reply == Failure(404, BillNotFound) && unchanged(db)
    ensures !Falsy(body) && id in old(db.rows) && !body.value.date.Given? ==>
      reply == Failure(400, DuplicateDate) && unchanged(db)
    ensures !Falsy(body) && id in old(db.rows) && body.value.date.Given? && DateHeldByOther(old(db.rows), body.value.date.value, id) ==>
      reply == Failure(400, DuplicateDate) && unchanged(db)
    ensures !Falsy(body) && id in old(db.rows) && body.value.date.Given? && !DateHeldByOther(old(db.rows), body.value.date.value, id) ==>
      && db.lastId == old(db.lastId)
      && db.clock == old(db.clock) + 1
      && reply == Success(200, Bill(id, body.value.date.value, BodyAmounts(body.value), old(db.rows)[id].createdAt, db.clock))
      && db.rows == old(db.rows)[id := reply.value]
    ensures !Falsy(body) && id in old(db.rows) && body.value.date == Given(old(db.rows)[id].date) ==>
      reply.Success?
  {
    if Falsy(body) {
      return Failure(400, NoDataProvided);
    }
    var existing := db.SelectById(id);
    if existing.None? {
      return Failure(404, BillNotFound);
    }
    var obj := body.value;
    OwnDateIsFree(db.rows, id);
    var r := db.Update(id, obj.DateOrNull(), BodyAmounts(obj));
    if r.IntegrityError? {
      return Failure(400, DuplicateDate);
    }
    var bill := db.SelectById(id);
    reply := Success(200, bill.value);
  }

  /** `delete_bill(bill_id)`: a 404 for an unknown id, otherwise exactly
      that bill is removed. */
  method DeleteBill(db: BillTable, id: nat) returns (reply: Reply<string>)
    requires db.Valid()
    modifies db
    ensures db.Valid()
    ensures id !in old(db.rows) ==> reply == Failure(404, BillNotFound) && unchanged(db)
    ensures id in old(db.rows) ==>
      && reply == Success(200, BillDeleted)
      && db.rows == old(db.rows) - {id}
      && db.lastId == old(db.lastId) && db.clock == old(db.clock)
  {
    var existing := db.SelectById(id);
    if existing.None? {
      return Failure(404, BillNotFound);
    }
    db.Delete(id);
    reply := Success(200, BillDeleted);
  }
}
