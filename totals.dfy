/** The `total_cost` and `total_kwh` template filters (app.py): sums over
    a bill's cells in which an empty (NULL) cell counts as 0. */
module Totals {
  import opened Schema

  /** `cell or 0`: NULL reads as 0 (and 0 stays 0). */
  function CellOr0(cell: Option<real>): (v: real)
    ensures cell.None? ==> v == 0.0
    ensures cell.Some? ==> v == cell.value
  {
    cell.GetOr(0.0)
  }

  /** The four cost columns `total_cost` adds. */
  const CostFields: seq<Field> := [GasCost, ElectricityDeliveryCost, ElectricityGenerationCost, OtherCost]

  /** The three kWh columns `total_kwh` adds. */
  const KwhFields: seq<Field> := [OnPeakKwh, OffPeakKwh, SuperOffPeakKwh]

  /** `calculate_total_cost(bill)`. */
  function TotalCost(a: Amounts): real
  {
    CellOr0(a.gasCost) + CellOr0(a.electricityDeliveryCost)
    + CellOr0(a.electricityGenerationCost) + CellOr0(a.otherCost)
  }

  /** `calculate_total_kwh(bill)`. */
  function TotalKwh(a: Amounts): real
  {
    CellOr0(a.onPeakKwh) + CellOr0(a.offPeakKwh) + CellOr0(a.superOffPeakKwh)
  }

  /** Reference definition: the cells of columns `fs`, NULL as 0, added up. */
  function SumOver(a: Amounts, fs: seq<Field>): real
  {
    if fs == [] then 0.0 else CellOr0(a.Get(fs[0])) + SumOver(a, fs[1..])
  }

  /** Every cell NULL replaced by 0, the other cells kept. */
  function ZeroFilled(a: Amounts): (z: Amounts)
    ensures forall f :: z.Get(f) == Some(CellOr0(a.Get(f)))
  {
    Tabulate(f => Some(CellOr0(a.Get(f))))
  }

  /** `total_cost` adds exactly the four cost columns. */
  lemma TotalCostIsSum(a: Amounts)
    ensures TotalCost(a) == SumOver(a, CostFields)
  {
    var s1: seq<Field> := [OtherCost];
    var s2: seq<Field> := [ElectricityGenerationCost] + s1;
    var s3: seq<Field> := [ElectricityDeliveryCost] + s2;
    assert s1[1..] == [] && s2[1..] == s1 && s3[1..] == s2 && CostFields[1..] == s3;
    assert SumOver(a, s1) == CellOr0(a.otherCost) + SumOver(a, []);
    assert SumOver(a, s2) == CellOr0(a.electricityGenerationCost) + SumOver(a, s1);
    assert SumOver(a, s3) == CellOr0(a.electricityDeliveryCost) + SumOver(a, s2);
    assert SumOver(a, CostFields) == CellOr0(a.gasCost) + SumOver(a, s3);
  }

  /** `total_kwh` adds exactly the three kWh columns. */
  lemma TotalKwhIsSum(a: Amounts)
    ensures TotalKwh(a) == SumOver(a, KwhFields)
  {
    var s1: seq<Field> := [SuperOffPeakKwh];
    var s2: seq<Field> := [OffPeakKwh] + s1;
    assert s1[1..] == [] && s2[1..] == s1 && KwhFields[1..] == s2;
    assert SumOver(a, s1) == CellOr0(a.superOffPeakKwh) + SumOver(a, []);
    assert SumOver(a, s2) == CellOr0(a.offPeakKwh) + SumOver(a, s1);
    assert SumOver(a, KwhFields) == CellOr0(a.onPeakKwh) + SumOver(a, s2);
  }

  /** A sum depends only on the cells of the columns it adds. */
  lemma {:induction false} SumOverAgree(a: Amounts, b: Amounts, fs: seq<Field>)
    requires forall i | 0 <= i < |fs| :: CellOr0(a.Get(fs[i])) == CellOr0(b.Get(fs[i]))
    ensures SumOver(a, fs) == SumOver(b, fs)
  {
    if fs != [] {
      SumOverAgree(a, b, fs[1..]);
    }
  }

  /** A NULL cell and a 0 cell give the same sum. */
  lemma {:induction false} SumOverZeroFilled(a: Amounts, fs: seq<Field>)
    ensures SumOver(ZeroFilled(a), fs) == SumOver(a, fs)
  {
    SumOverAgree(ZeroFilled(a), a, fs);
  }

  /** Sums of cells that are NULL or not negative are not negative. */
  lemma {:induction false} SumOverNonNegative(a: Amounts, fs: seq<Field>)
    requires forall f | a.Get(f).Some? :: a.Get(f).value >= 0.0
    ensures SumOver(a, fs) >= 0.0
  {
    if fs != [] {
      SumOverNonNegative(a, fs[1..]);
    }
  }

  /** Both totals read NULL as 0: filling the NULLs with zeros changes
      neither. */
  lemma TotalsOfZeroFilled(a: Amounts)
    ensures TotalCost(ZeroFilled(a)) == TotalCost(a)
    ensures TotalKwh(ZeroFilled(a)) == TotalKwh(a)
  {
    TotalCostIsSum(a);
    TotalCostIsSum(ZeroFilled(a));
    SumOverZeroFilled(a, CostFields);
    TotalKwhIsSum(a);
    TotalKwhIsSum(ZeroFilled(a));
    SumOverZeroFilled(a, KwhFields);
  }

  /** Non-negative readings give non-negative totals. */
  lemma TotalsNonNegative(a: Amounts)
    requires forall f | a.Get(f).Some? :: a.Get(f).value >= 0.0
    ensures TotalCost(a) >= 0.0 && TotalKwh(a) >= 0.0
  {
    TotalCostIsSum(a);
    SumOverNonNegative(a, CostFields);
    TotalKwhIsSum(a);
    SumOverNonNegative(a, KwhFields);
  }

  /** The gas reading and the kWh readings do not enter the cost, and the
      costs and the gas reading do not enter the kWh total (below). */
  lemma TotalCostIgnoresOtherColumns(a: Amounts, b: Amounts)
    requires forall i | 0 <= i < |CostFields| :: a.Get(CostFields[i]) == b.Get(CostFields[i])
    ensures TotalCost(a) == TotalCost(b)
  {
    TotalCostIsSum(a);
    TotalCostIsSum(b);
    SumOverAgree(a, b, CostFields);
  }

  lemma TotalKwhIgnoresOtherColumns(a: Amounts, b: Amounts)
    requires forall i | 0 <= i < |KwhFields| :: a.Get(KwhFields[i]) == b.Get(KwhFields[i])
    ensures TotalKwh(a) == TotalKwh(b)
  {
    TotalKwhIsSum(a);
    TotalKwhIsSum(b);
    SumOverAgree(a, b, KwhFields);
  }
}
