/** The `bills` table's row type, shared by both front ends. */
module Schema {

  datatype Option<+T> = None | Some(value: T)
  {
    function GetOr(default: T): T
    {
      match this
      case Some(v) => v
      case None => default
    }
  }

  /** The eight numeric columns of `bills`, each `REAL DEFAULT 0`. */
  datatype Field =
    | GasCost
    | ElectricityDeliveryCost
    | ElectricityGenerationCost
    | OtherCost
    | GasTherms
    | OnPeakKwh
    | OffPeakKwh
    | SuperOffPeakKwh

  /** The column name of each numeric field; it is also the key the forms
      and the JSON bodies use. */
  function ColumnName(f: Field): string
  {
    match f
    case GasCost => "gas_cost"
    case ElectricityDeliveryCost => "electricity_delivery_cost"
    case ElectricityGenerationCost => "electricity_generation_cost"
    case OtherCost => "other_cost"
    case GasTherms => "gas_therms"
    case OnPeakKwh => "electricity_on_peak_kwh"
    case OffPeakKwh => "electricity_off_peak_kwh"
    case SuperOffPeakKwh => "electricity_super_off_peak_kwh"
  }

  /** The numeric cells of one row. A REAL column without NOT NULL may hold
      NULL (`None`): the JSON front end stores a `null` it is sent. */
  datatype Amounts = Amounts(
    gasCost: Option<real>,
    electricityDeliveryCost: Option<real>,
    electricityGenerationCost: Option<real>,
    otherCost: Option<real>,
    gasTherms: Option<real>,
    onPeakKwh: Option<real>,
    offPeakKwh: Option<real>,
    superOffPeakKwh: Option<real>)
  {
    /** The cell of column `f`. */
    function Get(f: Field): Option<real>
    {
      match f
      case GasCost => gasCost
      case ElectricityDeliveryCost => electricityDeliveryCost
      case ElectricityGenerationCost => electricityGenerationCost
      case OtherCost => otherCost
      case GasTherms => gasTherms
      case OnPeakKwh => onPeakKwh
      case OffPeakKwh => offPeakKwh
      case SuperOffPeakKwh => superOffPeakKwh
    }
  }

  /** The row whose column `f` holds `cell(f)`, for every `f`. */
  function Tabulate(cell: Field -> Option<real>): (a: Amounts)
    ensures forall f :: a.Get(f) == cell(f)
  {
    Amounts(cell(GasCost), cell(ElectricityDeliveryCost), cell(ElectricityGenerationCost),
            cell(OtherCost), cell(GasTherms), cell(OnPeakKwh), cell(OffPeakKwh),
            cell(SuperOffPeakKwh))
  }

  /** One row of `bills`. The timestamps are abstract clock readings; see
      `BillTable.clock`. */
  datatype Bill = Bill(id: nat, date: string, amounts: Amounts, createdAt: nat, updatedAt: nat)

  /** Why SQLite refused a write with `sqlite3.IntegrityError`. */
  datatype Constraint = NotNull | Unique

  /** The outcome of one SQL write: done, or refused by a constraint. */
  datatype SqlResult<+T> = Done(value: T) | IntegrityError(constraint: Constraint)

  /** The `UNIQUE` constraint on `date`: no two rows share a date. */
  ghost predicate DatesUnique(rows: map<nat, Bill>)
  {
    forall i, j | i in rows && j in rows && i != j :: rows[i].date != rows[j].date
  }

  /** Some row other than `id` already holds `date`. */
  predicate DateHeldByOther(rows: map<nat, Bill>, date: string, id: nat)
  {
    exists k | k in rows && k != id :: rows[k].date == date
  }

  /** Some row already holds `date`. */
  predicate DateHeld(rows: map<nat, Bill>, date: string)
  {
    exists k | k in rows :: rows[k].date == date
  }

  /** A row may always be saved again with the date it already has. */
  lemma OwnDateIsFree(rows: map<nat, Bill>, id: nat)
    requires DatesUnique(rows) && id in rows
    ensures !DateHeldByOther(rows, rows[id].date, id)
  {
  }
}
