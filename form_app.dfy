/** The server-rendered front end (app.py): its form handlers and pages
    as statements against the shared `bills` table. Rendering a template
    or a redirect is reduced to the outcome it reports. */
module FormApp {
  import opened Schema
  import opened Table
  import opened Numbers

  /** A submitted form: field name to value (`request.form`). */
  type Form = map<string, string>

  const DateRequired: string := "Date is required"
  const DuplicateDate: string := "A bill with this date already exists"
  const BillNotFound: string := "Bill not found"

  /** `request.form.get(key)`. */
  function FormGet(form: Form, key: string): (v: Option<string>)
    ensures v.Some? <==> key in form
    ensures v.Some? ==> v.value == form[key]
  {
    if key in form then Some(form[key]) else None
  }

  /** `not bill_date`: the date is missing or empty. */
  predicate DateBlank(date: Option<string>)
  {
    date.None? || date.value == ""
  }

  /** The eight `parse_float(request.form.get(<column>))` values a create
      or an update writes: every cell set, a blank or unreadable one to 0. */
  function FormAmounts(form: Form): (a: Amounts)
    ensures forall f :: a.Get(f) == Some(ParseFloat(FormGet(form, ColumnName(f)), 0.0))
  {
    Tabulate(f => Some(ParseFloat(FormGet(form, ColumnName(f)), 0.0)))
  }

  /** A column left out of the form, left empty, or holding text `float()`
      refuses is written as 0; one holding a number is written as it. */
  lemma FormAmountsDefaults(form: Form, f: Field)
    ensures ColumnName(f) !in form ==> FormAmounts(form).Get(f) == Some(0.0)
    ensures ColumnName(f) in form && form[ColumnName(f)] == "" ==> FormAmounts(form).Get(f) == Some(0.0)
    ensures ColumnName(f) in form && ParseDecimal(form[ColumnName(f)]).None? ==> FormAmounts(form).Get(f) == Some(0.0)
    ensures ColumnName(f) in form && ParseDecimal(form[ColumnName(f)]).Some? ==>
      FormAmounts(form).Get(f) == ParseDecimal(form[ColumnName(f)])
  {
    var v := FormGet(form, ColumnName(f));
    if v.Some? && ParseDecimal(v.value).Some? {
      ParseFloatAccepts(v.value, ParseDecimal(v.value).value, 0.0);
    }
  }

  /** What a handler answers. */
  datatype FormOutcome =
    /** `redirect('/')` after a write. */
    | Redirect
    /** `bill_form.html` rendered, with an error or without, editing a bill
        (the one re-read from the table, if any) or creating one (with the
        date the date field starts with). */
    | FormPage(error: Option<string>, isEditing: bool, bill: Option<Bill>, defaultDate: Option<string>)
    /** A 404 with its text. */
    | NotFound(message: string)

  /** `create_bill_form()`: `today` is `date.today().isoformat()`. A blank
      date is refused before the table is touched; a date some bill has is
      refused by the UNIQUE constraint; otherwise one bill is added. */
  method CreateBillForm(db: BillTable, form: Form, today: string) returns (o: FormOutcome)
    requires db.Valid()
    modifies db
    ensures db.Valid()
    ensures DateBlank(FormGet(form, "date")) ==>
      o == FormPage(Some(DateRequired), false, None, Some(today)) && unchanged(db)
    ensures !DateBlank(FormGet(form, "date")) && DateHeld(old(db.rows), form["date"]) ==>
      o == FormPage(Some(DuplicateDate), false, None, Some(form["date"])) && unchanged(db)
    ensures !DateBlank(FormGet(form, "date")) && !DateHeld(old(db.rows), form["date"]) ==>
      && o == Redirect
      && db.lastId == old(db.lastId) + 1
      && db.clock == old(db.clock) + 1
      && db.rows == old(db.rows)[db.lastId := Bill(db.lastId, form["date"], FormAmounts(form), db.clock, db.clock)]
  {
    var date := FormGet(form, "date");
    if DateBlank(date) {
      return FormPage(Some(DateRequired), false, None, Some(today));
    }
    var r := db.Insert(date, FormAmounts(form));
    if r.Done? {
      o := Redirect;
    } else {
      o := FormPage(Some(DuplicateDate), false, None, Some(date.value));
    }
  }

  /** `update_bill_form(bill_id)`. A blank date is refused, showing the
      bill as it is (if there is one: this check comes before the 404). An
      unknown id is a 404. A date another bill has is refused by the UNIQUE
      constraint. Otherwise the bill takes the new date and amounts. */
  method UpdateBillForm(db: BillTable, id: nat, form: Form) returns (o: FormOutcome)
    requires db.Valid()
    modifies db
    ensures db.Valid()
    ensures DateBlank(FormGet(form, "date")) ==>
      && o == FormPage(Some(DateRequired), true, if id in db.rows then Some(db.rows[id]) else None, None)
      && unchanged(db)
    ensures !DateBlank(FormGet(form, "date")) && id !in old(db.rows) ==>
      o == NotFound(BillNotFound) && unchanged(db)
    ensures !DateBlank(FormGet(form, "date")) && id in old(db.rows) && DateHeldByOther(old(db.rows), form["date"], id) ==>
      o == FormPage(Some(DuplicateDate), true, Some(old(db.rows)[id]), None) && unchanged(db)
    ensures !DateBlank(FormGet(form, "date")) && id in old(db.rows) && !DateHeldByOther(old(db.rows), form["date"], id) ==>
      && o == Redirect
      && db.lastId == old(db.lastId)
      && db.clock == old(db.clock) + 1
      && db.rows == old(db.rows)[id := Bill(id, form["date"], FormAmounts(form), old(db.rows)[id].createdAt, db.clock)]
  {
    var date := FormGet(form, "date");
    if DateBlank(date) {
      var bill := db.SelectById(id);
      return FormPage(Some(DateRequired), true, bill, None);
    }
    var existing := db.SelectById(id);
    if existing.None? {
      return NotFound(BillNotFound);
    }
    var r := db.Update(id, date, FormAmounts(form));
    if r.Done? {
      o := Redirect;
    } else {
      var bill := db.SelectById(id);
      o := FormPage(Some(DuplicateDate), true, bill, None);
    }
  }

  /** What `delete_bill` answers (the HTMX empty body and the JSON message
      are one outcome). */
  datatype DeleteOutcome = Deleted | DeleteNotFound(message: string)

  /** `delete_bill(bill_id)`: a 404 for an unknown id, otherwise exactly
      that bill is removed. */
  method DeleteBill(db: BillTable, id: nat) returns (o: DeleteOutcome)
    requires db.Valid()
    modifies db
    ensures db.Valid()
    ensures id !in old(db.rows) ==> o == DeleteNotFound(BillNotFound) && unchanged(db)
    ensures id in old(db.rows) ==>
      o == Deleted && db.rows == old(db.rows) - {id} && db.lastId == old(db.lastId) && db.clock == old(db.clock)
  {
    var existing := db.SelectById(id);
    if existing.None? {
      return DeleteNotFound(BillNotFound);
    }
    db.Delete(id);
    o := Deleted;
  }

  /** `bills_list()`: every bill once, latest date first. */
  method BillsList(db: BillTable) returns (bills: seq<Bill>)
    requires db.Valid()
    ensures |bills| == |db.rows|
    ensures StrictlyByDateDesc(bills)
    ensures forall i | 0 <= i < |bills| :: bills[i].id in db.rows && db.rows[bills[i].id] == bills[i]
    ensures forall id | id in db.rows :: db.rows[id] in bills
  {
    bills := db.SelectByDateDesc(None);
  }

  /** `edit_bill(bill_id)`: the form for the stored bill, or a 404. */
  method EditBill(db: BillTable, id: nat) returns (o: FormOutcome)
    requires db.Valid()
    ensures id !in db.rows ==> o == NotFound(BillNotFound)
    ensures id in db.rows ==> o == FormPage(None, true, Some(db.rows[id]), None)
  {
    var bill := db.SelectById(id);
    if bill.None? {
      return NotFound(BillNotFound);
    }
    o := FormPage(None, true, bill, None);
  }
}
