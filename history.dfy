/** The `/history` page (app.py): the latest 13 bills, or all of them with
    `?all=true`, oldest first, with one chart series per column. */
module History {
  import opened Text
  import opened Schema
  import opened Table
  import opened Totals

  /** The number of bills the page shows unless all are asked for. */
  const HistoryWindow: nat := 13

  /** `c.lower()` on one character, for the ASCII letters; any other
      character that lowers to a letter of "true" is one of these. */
  function AsciiLower(c: char): (l: char)
    ensures 'A' <= c <= 'Z' ==> l as int == c as int + 32
    ensures !('A' <= c <= 'Z') ==> l == c
  {
    if 'A' <= c <= 'Z' then (c as int + 32) as char else c
  }

  function LowerText(s: string): (r: string)
    ensures |r| == |s|
    ensures forall i | 0 <= i < |s| :: r[i] == AsciiLower(s[i])
  {
    if s == [] then [] else [AsciiLower(s[0])] + LowerText(s[1..])
  }

  /** `request.args.get('all', '').lower() == 'true'`. */
  function ShowAllRequested(arg: Option<string>): bool
  {
    LowerText(arg.GetOr("")) == "true"
  }

  /** `?all=` is read without regard to case, and only the word "true"
      counts: a missing argument, "1" or "yes" do not. */
  lemma ShowAllRequestedCases(s: string)
    ensures ShowAllRequested(Some(s)) <==>
      |s| == 4 && s[0] in {'t', 'T'} && s[1] in {'r', 'R'} && s[2] in {'u', 'U'} && s[3] in {'e', 'E'}
    ensures !ShowAllRequested(None)
  {
    var l := LowerText(s);
    if |s| == 4 && s[0] in {'t', 'T'} && s[1] in {'r', 'R'} && s[2] in {'u', 'U'} && s[3] in {'e', 'E'} {
      assert l == "true";
    }
    if l == "true" {
      assert AsciiLower(s[0]) == 't' && AsciiLower(s[1]) == 'r';
      assert AsciiLower(s[2]) == 'u' && AsciiLower(s[3]) == 'e';
    }
    assert LowerText("") == "";
  }

  /** `bills.reverse()`. */
  function Reversed(s: seq<Bill>): (r: seq<Bill>)
    ensures |r| == |s|
    ensures forall i | 0 <= i < |s| :: r[i] == s[|s| - 1 - i]
  {
    if s == [] then [] else Reversed(s[1..]) + [s[0]]
  }

  /** Reversing keeps the same bills. */
  lemma ReversedMembers(s: seq<Bill>, x: Bill)
    ensures x in Reversed(s) <==> x in s
  {
    var r := Reversed(s);
    if x in s {
      var k :| 0 <= k < |s| && s[k] == x;
      assert r[|s| - 1 - k] == x;
    }
    if x in r {
      var k :| 0 <= k < |r| && r[k] == x;
      assert s[|s| - 1 - k] == x;
    }
  }

  /** Each bill's date sorts strictly before the next one's: oldest first. */
  ghost predicate StrictlyByDateAsc(s: seq<Bill>)
  {
    forall i, j | 0 <= i < j < |s| :: TextLess(s[i].date, s[j].date)
  }

  /** Reversing the latest-first query result gives the oldest first. */
  lemma ReversedAscending(s: seq<Bill>)
    requires StrictlyByDateDesc(s)
    ensures StrictlyByDateAsc(Reversed(s))
  {
  }

  /** `[bill['date'] for bill in bills]`. */
  function DateSeries(bills: seq<Bill>): (r: seq<string>)
    ensures |r| == |bills|
    ensures forall i | 0 <= i < |bills| :: r[i] == bills[i].date
  {
    if bills == [] then [] else [bills[0].date] + DateSeries(bills[1..])
  }

  /** `[bill[<column>] or 0 for bill in bills]`. */
  function Series(bills: seq<Bill>, f: Field): (r: seq<real>)
    ensures |r| == |bills|
    ensures forall i | 0 <= i < |bills| :: r[i] == CellOr0(bills[i].amounts.Get(f))
  {
    if bills == [] then [] else [CellOr0(bills[0].amounts.Get(f))] + Series(bills[1..], f)
  }

  /** What `history()` hands its template. */
  datatype HistoryPage = HistoryPage(
    bills: seq<Bill>,
    dates: seq<string>,
    onPeak: seq<real>,
    offPeak: seq<real>,
    superOffPeak: seq<real>,
    gasCost: seq<real>,
    elDeliveryCost: seq<real>,
    elGenerationCost: seq<real>,
    otherCost: seq<real>,
    showAll: bool)

  /** The page built from the query's rows: reversed, then one series per
      chart. */
  function ChartPage(rowsLatestFirst: seq<Bill>, showAll: bool): HistoryPage
  {
    var bills := Reversed(rowsLatestFirst);
    HistoryPage(bills, DateSeries(bills),
      Series(bills, OnPeakKwh), Series(bills, OffPeakKwh), Series(bills, SuperOffPeakKwh),
      Series(bills, GasCost), Series(bills, ElectricityDeliveryCost),
      Series(bills, ElectricityGenerationCost), Series(bills, OtherCost), showAll)
  }

  /** Every chart series runs parallel to the bills: entry `i` is bill `i`'s
      date or its cell, NULL drawn as 0. */
  ghost predicate SeriesParallel(p: HistoryPage)
  {
    && |p.dates| == |p.bills| && |p.onPeak| == |p.bills| && |p.offPeak| == |p.bills|
    && |p.superOffPeak| == |p.bills| && |p.gasCost| == |p.bills| && |p.elDeliveryCost| == |p.bills|
    && |p.elGenerationCost| == |p.bills| && |p.otherCost| == |p.bills|
    && forall i | 0 <= i < |p.bills| ::
      && p.dates[i] == p.bills[i].date
      && p.onPeak[i] == CellOr0(p.bills[i].amounts.onPeakKwh)
      && p.offPeak[i] == CellOr0(p.bills[i].amounts.offPeakKwh)
      && p.superOffPeak[i] == CellOr0(p.bills[i].amounts.superOffPeakKwh)
      && p.gasCost[i] == CellOr0(p.bills[i].amounts.gasCost)
      && p.elDeliveryCost[i] == CellOr0(p.bills[i].amounts.electricityDeliveryCost)
      && p.elGenerationCost[i] == CellOr0(p.bills[i].amounts.electricityGenerationCost)
      && p.otherCost[i] == CellOr0(p.bills[i].amounts.otherCost)
  }

  lemma ChartPageParallel(rows: seq<Bill>, showAll: bool)
    ensures SeriesParallel(ChartPage(rows, showAll))
  {
  }

  /** `history()`: reads the `all` argument, selects the latest 13 bills or
      all of them, and builds the page. Nothing is written. */
  method HistoryView(db: BillTable, allArg: Option<string>) returns (page: HistoryPage)
    requires db.Valid()
    ensures page.showAll == ShowAllRequested(allArg)
    ensures |page.bills| == if page.showAll || |db.rows| <= HistoryWindow then |db.rows| else HistoryWindow
    ensures StrictlyByDateAsc(page.bills)
    ensures forall i | 0 <= i < |page.bills| :: page.bills[i].id in db.rows && db.rows[page.bills[i].id] == page.bills[i]
    ensures forall id, i | id in db.rows && db.rows[id] !in page.bills && 0 <= i < |page.bills| ::
      TextLess(db.rows[id].date, page.bills[i].date)
    ensures SeriesParallel(page)
  {
    var showAll := ShowAllRequested(allArg);
    var rows := db.SelectByDateDesc(if showAll then None else Some(HistoryWindow));
    ReversedAscending(rows);
    page := ChartPage(rows, showAll);
    ChartPageParallel(rows, showAll);
    forall id, i | id in db.rows && db.rows[id] !in page.bills && 0 <= i < |page.bills|
      ensures TextLess(db.rows[id].date, page.bills[i].date)
    {
      assert page.bills[i] == rows[|rows| - 1 - i];
      ReversedMembers(rows, db.rows[id]);
    }
  }
}
