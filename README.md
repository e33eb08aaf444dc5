# sdge-bill: the `bills` table and its handlers, in Dafny

sdge-bill records monthly utility bills. Each bill has a date and eight
amounts: four costs, the gas therms and three electricity kWh readings. The
bills live in one SQLite table, `bills`. Two Flask front ends read and change
that table:

- `app.py` serves HTML forms: create, update, delete, the list, the edit page
  and a usage history.
- `backend/app.py` serves a JSON API: list, get, create, update, delete.

This project models both front ends as statements against one in-memory
model of the table, and proves what each handler does to it.

Modules, one file each:

- `Text` (`text.dfy`). The BINARY collation SQLite uses for `ORDER BY date`:
  lexicographic order on code points. Also decimal digit strings: padding,
  `str(n)`, and the value of a run of digits.
- `Schema` (`schema.dfy`). The row type `Bill`, its eight `Amounts` (each
  `Option<real>`, because a REAL column may hold NULL), the two constraints a
  write can break, and the UNIQUE property of `date`.
- `Table` (`table.dfy`). The class `BillTable`. It holds the rows by id, the
  AUTOINCREMENT counter (`lastId`, SQLite's `sqlite_sequence` entry) and an
  abstract clock for `created_at` / `updated_at`. Its methods are the SQL
  statements the handlers run: select by id, select ordered by date with an
  optional LIMIT, insert, update and delete. `Valid()` is the invariant every
  method keeps:
  - every id is between 1 and `lastId`;
  - `created_at <= updated_at <= clock`;
  - no two rows share a date.

  A refused write leaves the table unchanged, counter included. The next id
  is always `lastId + 1`, so a deleted id is never handed out again.
- `Numbers` (`parse_float.dfy`). `parse_float` and the part of Python's
  `float()` it relies on.
- `Dates` (`format_date.dfy`). `format_date`: `strptime("%Y-%m-%d")`, then
  `strftime("%b %d, %Y")`.
- `Totals` (`totals.dfy`). The `total_cost` and `total_kwh` filters.
- `History` (`history.dfy`). The `/history` page.
- `FormApp` (`form_app.dfy`). The handlers of `app.py`.
- `JsonApi` (`json_app.dfy`). The handlers of `backend/app.py`.
- `Scenarios` (`scenarios.dfy`). Request sequences a client can run.

Behaviour of the code worth knowing, all of it modelled as written:

- A date another bill already has is answered with 400 by `update_bill` as
  well as by `create_bill`.
- `update_bill` with no `"date"` member breaks NOT NULL. It is answered with
  the "A bill with this date already exists" message.
- A JSON `null` amount is stored as NULL. The `total_cost`, `total_kwh` and
  history code then reads it as 0.
- No handler checks that a date is a real calendar date. Any non-empty text
  is stored by the form handlers. The JSON create also stores an empty date
  `""`, because it only checks that the `"date"` member exists.
- `format_date` shows text that `strptime` refuses unchanged. The model reads
  only the strict `YYYY-MM-DD` form (see "Left out").
- An unreadable form amount is stored as 0 rather than refused.
- `ORDER BY date DESC` has no id tie-break. None is needed: dates are unique,
  so the order is strict (`Table.BillTable.SortByDateDesc`), and a strictly
  ordered list holds no bill twice (`Table.StrictlyByDateDescDistinct`).

## Model

| member | source | states |
|---|---|---|
| `Table.BillTable.constructor` | backend/app.py:38-53 | A freshly created table is empty, its AUTOINCREMENT counter is 0, and it satisfies the table invariant. |
| `Table.BillTable.SelectById` | app.py:135-136 | `SELECT ... WHERE id = ?` finds a row exactly when the id is present, and returns that row with that id. |
| `Table.BillTable.SelectByDateDesc` | backend/app.py:70-71 | `ORDER BY date DESC [LIMIT n]` returns `min(n, rows)` rows, or all rows when there is no limit. They are strictly ordered by date, latest first, and all of them are stored rows. Every row left out is older than every row returned. |
| `Table.BillTable.SortByDateDesc` | app.py:154-155 | The sort loop returns every row exactly once, in strictly descending date order. |
| `Table.InsertByDateDesc` | app.py:154 | Inserting a bill into a list already sorted by date keeps it strictly sorted. The result holds exactly the old bills plus the new one. |
| `Table.StrictlyByDateDescDistinct` | backend/app.py:41 | A list strictly ordered by date, latest first, holds no bill twice. |
| `Table.Limited` | app.py:196-203 | `LIMIT n` keeps at most `n` rows and at most the rows there are: `n` of them when more exist, all of them otherwise. |
| `Table.BillTable.Insert` | app.py:248-265 | A NULL date breaks NOT NULL, and a date any row already holds breaks UNIQUE. Either way the table and its counter are unchanged. Otherwise exactly one row is added. It gets id `lastId + 1` and the new clock value for both timestamps, and the table invariant still holds. |
| `Table.BillTable.Update` | app.py:296-321 | An unknown id changes 0 rows and nothing else. A NULL date, or a date another row holds, is refused and changes nothing. Otherwise only that row changes: it keeps its id and `created_at`, takes the new date and amounts, and gets a new `updated_at`. The counter is unchanged. |
| `Table.BillTable.Delete` | app.py:139-140 | Exactly that row is removed. The counter is kept, so the id is never reused. |
| `Schema.OwnDateIsFree` | backend/app.py:152 | No other row holds a row's own date, so saving a row again with the date it has never breaks UNIQUE. |
| `Text.TextLessTransitive` | backend/app.py:70 | The BINARY collation used by `ORDER BY date` is transitive. |
| `Text.TextLessTotal` | backend/app.py:70 | Any two different dates are ordered one way or the other. |
| `Text.TextLessIrreflexive` | backend/app.py:70 | No date sorts before itself. |
| `Numbers.ParseFloatBlank` | app.py:65-66 | `None`, `""` and text that is only white space all give the default. |
| `Numbers.ParseFloatRejectsNonNumeric` | app.py:67-70 | If the stripped text contains any character that cannot appear in a number, `float()` raises and the default is returned. |
| `Numbers.ParseFloatAccepts` | app.py:67-68 | Text that `float()` reads as `x` gives `x`, whatever the default. |
| `Numbers.ParseDecimalNat` | app.py:68 | `float(str(n))` is `n`. |
| `Numbers.ParseDecimalFraction` | app.py:68 | `float("<n>.<f>")` with `w` fraction digits is `n + f / 10^w`. |
| `Numbers.ParseDecimalNegative` | app.py:68 | A leading `-` before a number that starts with a digit negates it. |
| `Numbers.ParseDecimalMinus` | app.py:68 | A leading `-` negates any unsigned number `float()` reads, ".5" included, so "-.5" is -0.5. |
| `Numbers.ParseFloatWhole` | app.py:63-70 | A typed whole amount such as "12" is stored as 12. |
| `Numbers.ParseFloatFraction` | app.py:63-70 | A typed amount such as "45.20" is stored as 45.2. |
| `Numbers.ParseFloatNegativeFraction` | app.py:63-70 | A typed amount such as "-3.5" is stored as -3.5. |
| `Numbers.UnsignedIsNumeric` | app.py:68 | An unsigned number `float()` accepts contains only digits, `.`, `e`/`E` and signs. |
| `Dates.ParseIso` | app.py:93 | Whatever `strptime` accepts is a real calendar date: years 1 to 9999, months 1 to 12, and days within the month, leap years included. |
| `Dates.ParseIsoText` | app.py:93 | `strptime` reads back the `YYYY-MM-DD` text of every valid date. |
| `Dates.ParseIsoExact` | app.py:93 | Every text `strptime` accepts is exactly the `YYYY-MM-DD` text of the date it yields. |
| `Dates.FormatDateBlank` | app.py:89-90 | A missing or empty value is shown as `""`. |
| `Dates.FormatDateIso` | app.py:91-94 | A stored `YYYY-MM-DD` date is shown as `Mon DD, YYYY`. |
| `Dates.FormatDateUnchanged` | app.py:91-96 | A non-empty value is returned unchanged exactly when `strptime` refuses it. An accepted date is always rewritten. |
| `Dates.StrftimeInjective` | app.py:94 | Two different dates are never shown as the same text. |
| `Dates.FormatDateExample` | app.py:88 | "2026-01-28" is shown as "Jan 28, 2026". |
| `Dates.IsoTextOrder` | app.py:154 | `YYYY-MM-DD` texts sort under the BINARY collation exactly as the dates sort on the calendar, so `ORDER BY date` is chronological. |
| `Totals.TotalCostIsSum` | app.py:99-107 | `total_cost` is the sum of the gas, delivery, generation and other costs, with NULL read as 0. |
| `Totals.TotalKwhIsSum` | app.py:110-117 | `total_kwh` is the sum of the on-peak, off-peak and super-off-peak kWh, with NULL read as 0. |
| `Totals.TotalsOfZeroFilled` | app.py:103-116 | Replacing every NULL cell with 0 changes neither total. |
| `Totals.TotalsNonNegative` | app.py:99-117 | When no reading is negative, neither total is negative. |
| `Totals.TotalCostIgnoresOtherColumns` | app.py:102-107 | `total_cost` depends on the four cost columns only. |
| `Totals.TotalKwhIgnoresOtherColumns` | app.py:113-117 | `total_kwh` depends on the three kWh columns only. |
| `History.ShowAllRequestedCases` | app.py:184 | `?all=` turns on the full history exactly for "true" in any letter case. A missing argument does not. |
| `History.Reversed` | app.py:206 | `bills.reverse()` keeps the length and puts entry `i` at position `n-1-i`. |
| `History.ReversedAscending` | app.py:205-206 | Reversing the latest-first query result gives the bills oldest first, in strict order. |
| `History.DateSeries` | app.py:209 | The date series runs parallel to the bills. |
| `History.Series` | app.py:210-217 | Each chart series runs parallel to the bills and holds that column's cell, with NULL drawn as 0. |
| `History.ChartPageParallel` | app.py:208-217 | All eight series of the page run parallel to its bills. |
| `History.HistoryView` | app.py:181-229 | `history()` writes nothing. It shows the 13 latest bills, or all bills when `all=true`, oldest first and strictly ordered. They are all stored bills, every bill left out is older than every bill shown, and every series is parallel to them. |
| `FormApp.FormAmountsDefaults` | app.py:256-263 | An amount the form leaves out, leaves empty or fills with text `float()` refuses is written as 0. A readable number is written as that number. |
| `FormApp.CreateBillForm` | app.py:234-272 | A missing or empty date gives "Date is required", with today's date pre-filled, and changes nothing. A date some bill has gives "A bill with this date already exists", keeps the typed date, and changes nothing. Otherwise exactly one bill is added, with the next id and the parsed amounts, and the handler redirects. |
| `FormApp.UpdateBillForm` | app.py:275-330 | A blank date gives "Date is required" with the stored bill, if any, and changes nothing. An unknown id gives 404 "Bill not found" and changes nothing. A date another bill has gives the duplicate message with the unchanged bill. Otherwise only that bill is rewritten: same id and `created_at`, new date, amounts and `updated_at`. |
| `FormApp.DeleteBill` | app.py:130-145 | An unknown id gives 404 and changes nothing. Otherwise exactly that bill is removed and the counter is kept. |
| `FormApp.BillsList` | app.py:150-156 | The list shows every bill exactly once, latest date first. |
| `FormApp.EditBill` | app.py:167-177 | The edit form shows the stored bill, or 404 for an unknown id. |
| `JsonApi.BodyAmountsOmitted` | backend/app.py:104-111 | A create or an update writes an amount that is sent as sent and a `null` as NULL. An amount left out is written as 0, so an update resets it rather than keeping the stored value. |
| `JsonApi.GetBills` | backend/app.py:66-72 | Status 200 with every bill exactly once, in strictly descending date order. |
| `JsonApi.GetBill` | backend/app.py:75-83 | Status 200 with the stored bill, or 404 "Bill not found". |
| `JsonApi.CreateBill` | backend/app.py:86-119 | No body or no `"date"` member gives 400 "Date is required" and changes nothing. A `null` date (NOT NULL) or a date already stored (UNIQUE) gives 400 and changes nothing. Otherwise exactly one row is added, with id `lastId + 1` and absent amounts set to 0, and returned with 201. |
| `JsonApi.UpdateBill` | backend/app.py:122-169 | An empty body gives 400 and an unknown id gives 404, and neither changes anything. A missing or `null` date, or a date another row has, gives 400 and changes nothing. Re-saving a row with its own date always succeeds. Otherwise only that row is rewritten: id and `created_at` kept, all nine fields taken from the body (absent amounts set to 0), `updated_at` refreshed. The row is returned as stored. |
| `JsonApi.DeleteBill` | backend/app.py:172-184 | An unknown id gives 404 and changes nothing. Otherwise exactly that row is removed and "Bill deleted successfully" is returned. |
| `Scenarios.DeletedIdNotReused` | backend/app.py:40 | Create a bill, delete it, then create another: the second gets a larger id than the first. |
| `Scenarios.DuplicateCreateRefused` | backend/app.py:118-119 | Creating two bills with one date: the first succeeds with 201, and the second gets 400 and leaves the first untouched. |
| `Scenarios.DeleteThenGet` | backend/app.py:172-184 | After a bill is deleted, getting it gives 404. |

## Left out

- Flask routing, `render_template`, `redirect` and `jsonify` are reduced to the outcome each handler reports. The form echoed back on an error page is not modelled.
- The HTMX split in `delete_bill` (an empty 200 body versus a JSON message) is one `Deleted` outcome, because the table effect is the same.
- The `/add` page is not modelled: it renders a blank form and does not touch the table.
- `date.today()` is a parameter of `CreateBillForm`: the clock is I/O.
- Connections (`get_db`, `close_connection`), `DATABASE_PATH` and `init_db` running on import are I/O.
- `serve_static`, both `health_check` routes and CORS are HTTP plumbing.
- `format_currency` is left out: it depends on float formatting.
- Amounts are exact reals. Rounding to binary doubles is not modelled.
- Numbers.ParseDecimal: does not model `float()`'s `inf`, `infinity` and `nan` spellings, `_` digit grouping, non-ASCII digits or non-ASCII white space. Numbers.ParseFloatRejectsNonNumeric counts letters and `_` as refused, so it does not hold for those spellings.
- SQLite type affinity is not modelled. A JSON body is an object whose `date` is a string or `null` and whose amounts are numbers or `null`. A number sent as the date, or text sent as an amount, is outside the model.
- Request bodies that are not JSON objects (lists, strings, numbers) are outside the model, and so is the 415 error Flask raises for a non-JSON content type. The body is an object or `null`.
- Dates.ParseIso: models only the strict zero-padded `YYYY-MM-DD` form. It does not model the looser inputs `strptime` also accepts, such as "2026-1-5".
- Dates.Strftime: prints `%Y` as four digits. Some Python builds print years below 1000 unpadded.
- `created_at` and `updated_at` are readings of an abstract clock that advances by one per successful write. Their `YYYY-MM-DD HH:MM:SS` text is not modelled.
- History.HistoryView: returns whole rows. The history query selects only the date and seven amount columns, so the real page's rows hold fewer keys.
- Concurrency and the atomicity of the uniqueness check are not modelled: the table is used by one request at a time.
- Ids and amounts are unbounded integers and reals. Flask's `<int:bill_id>` takes any digit string, and `sqlite3` raises `OverflowError` when it binds an integer of 2^63 or more, which the handlers do not catch (a 500).
- JsonApi.GetBill, JsonApi.UpdateBill and JsonApi.DeleteBill: an id of 2^63 or more gives 404 in the model, where the code fails with `OverflowError`.
- FormApp.EditBill, FormApp.UpdateBillForm and FormApp.DeleteBill: an id of 2^63 or more gives 404 in the model (or, for an update with a blank date, the error page without a bill), where the code fails with `OverflowError`.
- JsonApi.CreateBill and JsonApi.UpdateBill: a JSON integer amount of 2^63 or more is stored in the model, where binding it fails with `OverflowError`. JSON integers and floats are not told apart.
- The only storage error modelled is `IntegrityError`. A full disk, a locked database and I/O errors are not.
