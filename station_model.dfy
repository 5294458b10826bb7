/**
 * The calculation block of the EV charging-station financial model: base
 * annual figures, the year-by-year cash-flow projection with revenue growth,
 * opex inflation and a loan that stops after its term, and the metrics drawn
 * from it (net present value, profitability index, payback period and
 * breakeven price per kWh).
 */
module StationModel {
  import opened Finance

  datatype Option<T> = None | Some(value: T)

  datatype Ownership = OutrightPurchase | Lease

  /**
   * The inputs the calculation reads. Percentages are given as percent
   * (10.0 means 10%). The location, charger type, charging duration and solar
   * share do not enter the arithmetic and are not represented.
   */
  datatype Inputs = Inputs(
    sessionsPerDay: int,
    capex: real,
    opexMonthly: real,
    pricePerKwh: real,
    avgKwhPerSession: int,
    opexInflation: real,
    revenueGrowth: real,
    loanPct: real,
    loanTerm: int,
    interestRate: real,
    ownership: Ownership,
    years: int,
    discountRate: real)

  /** The ranges the input controls allow. */
  predicate Valid(inp: Inputs)
  {
    && 10 <= inp.sessionsPerDay <= 200
    && inp.capex >= 1_000_000.0
    && inp.opexMonthly >= 50_000.0
    && inp.pricePerKwh >= 100.0
    && 5 <= inp.avgKwhPerSession <= 50
    && 0.0 <= inp.opexInflation <= 20.0
    && 0.0 <= inp.revenueGrowth <= 20.0
    && 0.0 <= inp.loanPct <= 100.0
    && 1 <= inp.loanTerm <= 10
    && 0.0 <= inp.interestRate <= 20.0
    && 1 <= inp.years <= 15
    && 0.0 <= inp.discountRate <= 20.0
  }

  // ---------------------------------------------------------------------------
  // Base figures

  function SessionsPerYear(inp: Inputs): (n: int)
    requires Valid(inp)
    ensures 3_650 <= n <= 73_000
  {
    inp.sessionsPerDay * 365
  }

  /** Energy sold in a year, in kWh; it is also the divisor of the breakeven price. */
  function KwhPerYear(inp: Inputs): (kwh: real)
    requires Valid(inp)
    ensures kwh >= 18_250.0
  {
    (SessionsPerYear(inp) * inp.avgKwhPerSession) as real
  }

  /** Revenue of a year before any growth is applied. */
  function RevenuePerYear(inp: Inputs): (revenue: real)
    requires Valid(inp)
    ensures revenue >= 1_825_000.0
  {
    KwhPerYear(inp) * inp.pricePerKwh
  }

  function LoanAmount(inp: Inputs): (amount: real)
    requires Valid(inp)
    ensures 0.0 <= amount <= inp.capex
  {
    inp.capex * inp.loanPct / 100.0
  }

  /** The level yearly instalment that repays the loan over its term at the given interest rate. */
  function AnnualLoanPayment(inp: Inputs): (payment: real)
    requires Valid(inp)
    ensures payment >= 0.0
    ensures Balance(LoanAmount(inp), inp.interestRate / 100.0, payment, inp.loanTerm) == 0.0
  {
    AnnuityPayment(LoanAmount(inp), inp.interestRate / 100.0, inp.loanTerm)
  }

  function OpexYearly(inp: Inputs): (opex: real)
    requires Valid(inp)
    ensures opex >= 600_000.0
  {
    inp.opexMonthly * 12.0
  }

  /** A leased station pays 15% of the capital cost every year; an owned one pays nothing. */
  function LeasePayment(inp: Inputs): (lease: real)
    requires Valid(inp)
    ensures lease >= 0.0
    ensures lease > 0.0 <==> inp.ownership == Lease
    ensures inp.ownership == Lease ==> lease == 0.15 * inp.capex
  {
    if inp.ownership == Lease then inp.capex * 0.15 else 0.0
  }

  // ---------------------------------------------------------------------------
  // The figures of projection year y (y >= 1); growth and inflation compound
  // from the first projected year on.

  function RevenueInYear(inp: Inputs, y: nat): real
    requires Valid(inp)
  {
    RevenuePerYear(inp) * Pow(1.0 + inp.revenueGrowth / 100.0, y)
  }

  function OpexInYear(inp: Inputs, y: nat): real
    requires Valid(inp)
  {
    OpexYearly(inp) * Pow(1.0 + inp.opexInflation / 100.0, y)
  }

  /** Energy is costed as a flat 30% of the year's revenue. */
  function EnergyCost(inp: Inputs, y: nat): real
    requires Valid(inp)
  {
    RevenueInYear(inp, y) * 0.3
  }

  /** The loan instalment falls due only in the years of the loan term. */
  function LoanDue(inp: Inputs, y: nat): (due: real)
    requires Valid(inp)
    ensures due >= 0.0
    ensures due > 0.0 ==> y <= inp.loanTerm
    ensures y <= inp.loanTerm ==> Balance(LoanAmount(inp), inp.interestRate / 100.0, due, inp.loanTerm) == 0.0
  {
    if y <= inp.loanTerm then AnnualLoanPayment(inp) else 0.0
  }

  function CostsInYear(inp: Inputs, y: nat): real
    requires Valid(inp)
  {
    OpexInYear(inp, y) + EnergyCost(inp, y) + LoanDue(inp, y) + LeasePayment(inp)
  }

  function NetCashInYear(inp: Inputs, y: nat): (net: real)
    requires Valid(inp)
    ensures net == 0.7 * RevenueInYear(inp, y) - OpexInYear(inp, y) - LeasePayment(inp) - LoanDue(inp, y)
  {
    RevenueInYear(inp, y) - CostsInYear(inp, y)
  }

  /** Each year's revenue is the previous year's grown by one year's growth rate. */
  lemma RevenueCompounds(inp: Inputs, y: nat)
    requires Valid(inp)
    ensures RevenueInYear(inp, y + 1) == RevenueInYear(inp, y) * (1.0 + inp.revenueGrowth / 100.0)
  {
    var f := 1.0 + inp.revenueGrowth / 100.0;
    assert Pow(f, y + 1) == f * Pow(f, y);
    Rescale(RevenuePerYear(inp), f, Pow(f, y));
  }

  /** Each year's opex is the previous year's raised by one year's inflation. */
  lemma OpexCompounds(inp: Inputs, y: nat)
    requires Valid(inp)
    ensures OpexInYear(inp, y + 1) == OpexInYear(inp, y) * (1.0 + inp.opexInflation / 100.0)
  {
    var f := 1.0 + inp.opexInflation / 100.0;
    assert Pow(f, y + 1) == f * Pow(f, y);
    Rescale(OpexYearly(inp), f, Pow(f, y));
  }

  /** Growth and inflation are already applied to the first projected year. */
  lemma FirstYearGrown(inp: Inputs)
    requires Valid(inp)
    ensures RevenueInYear(inp, 1) == RevenuePerYear(inp) * (1.0 + inp.revenueGrowth / 100.0)
    ensures OpexInYear(inp, 1) == OpexYearly(inp) * (1.0 + inp.opexInflation / 100.0)
  {
    RevenueCompounds(inp, 0);
    OpexCompounds(inp, 0);
  }

  lemma Rescale(c: real, f: real, p: real)
    ensures c * (f * p) == (c * p) * f
  {
  }

  /** With a non-negative growth rate, revenue never falls from one year to a later one. */
  lemma RevenueNondecreasing(inp: Inputs, a: nat, b: nat)
    requires Valid(inp) && a <= b
    ensures RevenuePerYear(inp) <= RevenueInYear(inp, a) <= RevenueInYear(inp, b)
  {
    var f := 1.0 + inp.revenueGrowth / 100.0;
    PowMonotone(f, a, b);
    ScaleMonotone(RevenuePerYear(inp), 1.0, Pow(f, a));
    ScaleMonotone(RevenuePerYear(inp), Pow(f, a), Pow(f, b));
  }

  /** With a non-negative inflation rate, opex never falls from one year to a later one. */
  lemma OpexNondecreasing(inp: Inputs, a: nat, b: nat)
    requires Valid(inp) && a <= b
    ensures OpexYearly(inp) <= OpexInYear(inp, a) <= OpexInYear(inp, b)
  {
    var f := 1.0 + inp.opexInflation / 100.0;
    PowMonotone(f, a, b);
    ScaleMonotone(OpexYearly(inp), 1.0, Pow(f, a));
    ScaleMonotone(OpexYearly(inp), Pow(f, a), Pow(f, b));
  }

  lemma ScaleMonotone(c: real, p: real, q: real)
    requires c >= 0.0 && p <= q
    ensures c * p <= c * q
  {
    assert c * q - c * p == c * (q - p);
  }

  /**
   * Once the loan term is over, the fixed charges of a year (everything but
   * opex and energy) are exactly one loan instalment lower than in any year of
   * the term; nothing else about them changes.
   */
  lemma LoanDropOff(inp: Inputs, t: nat, y: nat)
    requires Valid(inp) && 1 <= t <= inp.loanTerm < y
    ensures CostsInYear(inp, y) - OpexInYear(inp, y) - EnergyCost(inp, y)
            == CostsInYear(inp, t) - OpexInYear(inp, t) - EnergyCost(inp, t) - AnnualLoanPayment(inp)
    ensures CostsInYear(inp, t) - OpexInYear(inp, t) - EnergyCost(inp, t) == LeasePayment(inp) + AnnualLoanPayment(inp)
  {
  }

  /** Without growth and inflation, revenue and opex are the base figures in every year. */
  lemma FlatFigures(inp: Inputs, y: nat)
    requires Valid(inp) && inp.revenueGrowth == 0.0 && inp.opexInflation == 0.0
    ensures RevenueInYear(inp, y) == RevenuePerYear(inp)
    ensures OpexInYear(inp, y) == OpexYearly(inp)
  {
    PowOne(y);
  }

  /**
   * Without growth and inflation, any two years on the same side of the end of
   * the loan term have the same net cash flow, and a year after the term
   * earns exactly one loan instalment more than a year within it.
   */
  lemma FlatCashFlows(inp: Inputs, a: nat, b: nat)
    requires Valid(inp) && inp.revenueGrowth == 0.0 && inp.opexInflation == 0.0
    ensures (a <= inp.loanTerm <==> b <= inp.loanTerm) ==> NetCashInYear(inp, a) == NetCashInYear(inp, b)
    ensures a <= inp.loanTerm < b ==> NetCashInYear(inp, b) == NetCashInYear(inp, a) + AnnualLoanPayment(inp)
  {
    FlatFigures(inp, a);
    FlatFigures(inp, b);
  }

  // ---------------------------------------------------------------------------
  // The projection loop

  /** One line of the revenue/cost chart. */
  datatype YearRow = YearRow(year: int, revenue: real, costs: real, net: real)

  /**
   * Runs the projection: cash flows with the capital outlay at index 0 and the
   * net cash flow of year y at index y, their running totals, one chart row per
   * year, and the revenue and opex of the final year.
   */
  method Project(inp: Inputs)
    returns (cashFlows: seq<real>, cumulative: seq<real>, rows: seq<YearRow>, annualRevenue: real, annualOpex: real)
    requires Valid(inp)
    ensures |cashFlows| == inp.years + 1 && |cumulative| == inp.years + 1 && |rows| == inp.years
    ensures cashFlows[0] == -inp.capex && cumulative[0] == -inp.capex
    ensures forall y {:trigger NetCashInYear(inp, y)} :: 1 <= y <= inp.years ==> cashFlows[y] == NetCashInYear(inp, y)
    ensures forall i :: 1 <= i <= inp.years ==> cumulative[i] == cumulative[i - 1] + cashFlows[i]
    ensures cumulative == RunningSums(cashFlows)
    ensures forall y {:trigger NetCashInYear(inp, y)} :: 1 <= y <= inp.years ==>
              rows[y - 1] == YearRow(y, RevenueInYear(inp, y), CostsInYear(inp, y), NetCashInYear(inp, y))
    ensures annualRevenue == RevenueInYear(inp, inp.years) && annualOpex == OpexInYear(inp, inp.years)
  {
    var annualLoanPayment := AnnualLoanPayment(inp);
    var leasePayment := LeasePayment(inp);
    cashFlows := [-inp.capex];
    cumulative := [-inp.capex];
    rows := [];
    annualRevenue := RevenuePerYear(inp);
    annualOpex := OpexYearly(inp);
    for year := 1 to inp.years + 1
      invariant |cashFlows| == year && |rows| == year - 1
      invariant cashFlows[0] == -inp.capex
      invariant annualRevenue == RevenueInYear(inp, year - 1)
      invariant annualOpex == OpexInYear(inp, year - 1)
      invariant forall y {:trigger NetCashInYear(inp, y)} :: 1 <= y < year ==> cashFlows[y] == NetCashInYear(inp, y)
      invariant forall y {:trigger NetCashInYear(inp, y)} :: 1 <= y < year ==>
                  rows[y - 1] == YearRow(y, RevenueInYear(inp, y), CostsInYear(inp, y), NetCashInYear(inp, y))
      invariant cumulative == RunningSums(cashFlows)
    {
      RevenueCompounds(inp, year - 1);
      OpexCompounds(inp, year - 1);
      annualRevenue := annualRevenue * (1.0 + inp.revenueGrowth / 100.0);
      annualOpex := annualOpex * (1.0 + inp.opexInflation / 100.0);
      var energyCost := annualRevenue * 0.3;
      var annualCosts := annualOpex + energyCost + (if year <= inp.loanTerm then annualLoanPayment else 0.0) + leasePayment;
      var netCash := annualRevenue - annualCosts;
      assert annualRevenue == RevenueInYear(inp, year);
      assert annualCosts == CostsInYear(inp, year);
      assert netCash == NetCashInYear(inp, year);
      RunningSumsAppend(cashFlows, netCash);
      cashFlows := cashFlows + [netCash];
      rows := rows + [YearRow(year, annualRevenue, annualCosts, netCash)];
      cumulative := cumulative + [cumulative[|cumulative| - 1] + netCash];
    }
    forall i | 1 <= i <= inp.years
      ensures cumulative[i] == cumulative[i - 1] + cashFlows[i]
    {
      RunningSumsStep(cashFlows, i);
    }
  }

  // ---------------------------------------------------------------------------
  // Metrics

  /** Net present value of the cash flows at the discount rate, the outlay undiscounted. */
  function NetPresentValue(inp: Inputs, cashFlows: seq<real>): (npv: real)
    requires Valid(inp)
    ensures inp.discountRate == 0.0 ==> npv == Sum(cashFlows)
  {
    NpvAtZeroRate(cashFlows);
    Npv(inp.discountRate / 100.0, cashFlows)
  }

  /** (NPV + capex) / capex: above one exactly when the NPV is positive. */
  function ProfitabilityIndex(npv: real, capex: real): (pi: real)
    requires capex > 0.0
    ensures pi * capex == npv + capex
    ensures pi > 1.0 <==> npv > 0.0
    ensures pi == 1.0 <==> npv == 0.0
  {
    (npv + capex) / capex
  }

  /** The first index at or after i where the running total is positive, if any. */
  function FirstPositiveFrom(cumulative: seq<real>, i: nat): (p: Option<nat>)
    requires i <= |cumulative|
    ensures p.Some? ==> i <= p.value < |cumulative| && cumulative[p.value] > 0.0
    ensures p.Some? ==> forall j :: i <= j < p.value ==> cumulative[j] <= 0.0
    ensures p.None? ==> forall j :: i <= j < |cumulative| ==> cumulative[j] <= 0.0
    decreases |cumulative| - i
  {
    if i == |cumulative| then None
    else if cumulative[i] > 0.0 then Some(i)
    else FirstPositiveFrom(cumulative, i + 1)
  }

  /**
   * Payback period: the first year whose cumulative cash flow is positive, or
   * None ("beyond projection") when there is none.
   */
  function PaybackPeriod(cumulative: seq<real>): (p: Option<nat>)
    ensures p.Some? ==> p.value < |cumulative| && cumulative[p.value] > 0.0
    ensures p.Some? ==> forall j :: 0 <= j < p.value ==> cumulative[j] <= 0.0
    ensures p.None? ==> forall j :: 0 <= j < |cumulative| ==> cumulative[j] <= 0.0
  {
    FirstPositiveFrom(cumulative, 0)
  }

  /** Example: flows -100, 60, 60 run to -100, -40, 20, so payback comes in year 2. */
  lemma PaybackExample()
    ensures PaybackPeriod(RunningSums([-100.0, 60.0, 60.0])) == Some(2)
  {
    var r := RunningSums([-100.0, 60.0, 60.0]);
    assert r[0] == -100.0 && r[1] == -40.0 && r[2] == 20.0;
  }

  /**
   * Breakeven price per kWh: the final year's opex, the lease payment and the
   * loan instalment (charged whatever the term, since the term is at least one
   * year), spread over the kWh sold in a year; energy cost is not included.
   */
  function BreakevenPrice(inp: Inputs, annualOpex: real): (price: real)
    requires Valid(inp)
    ensures price * KwhPerYear(inp) == annualOpex + LeasePayment(inp) + AnnualLoanPayment(inp)
    ensures annualOpex >= 0.0 ==> price > 0.0 || (LeasePayment(inp) == 0.0 && AnnualLoanPayment(inp) == 0.0 && annualOpex == 0.0)
  {
    (annualOpex + LeasePayment(inp) + (if inp.loanTerm > 0 then AnnualLoanPayment(inp) else 0.0)) / KwhPerYear(inp)
  }

  /**
   * Compared with the final projected year's costs, the breakeven price leaves
   * out energy and still charges a loan instalment when the final year lies
   * beyond the loan term.
   */
  lemma BreakevenVersusFinalYear(inp: Inputs)
    requires Valid(inp)
    ensures BreakevenPrice(inp, OpexInYear(inp, inp.years)) * KwhPerYear(inp)
            == CostsInYear(inp, inp.years) - EnergyCost(inp, inp.years)
               + (if inp.years > inp.loanTerm then AnnualLoanPayment(inp) else 0.0)
  {
  }

  /** Every figure the model reports. */
  datatype Report = Report(npv: real, pi: real, payback: Option<nat>, breakevenPrice: real)

  /**
   * Reduces a projection to the reported metrics: the net present value at the
   * discount rate, the profitability index, the payback year and the
   * breakeven price per kWh.
   */
  function Metrics(inp: Inputs, cashFlows: seq<real>, cumulative: seq<real>, annualOpex: real): (r: Report)
    requires Valid(inp)
    requires |cashFlows| == inp.years + 1 && cumulative == RunningSums(cashFlows)
    requires cashFlows[0] == -inp.capex
    ensures r.npv == Npv(inp.discountRate / 100.0, cashFlows)
    ensures inp.discountRate == 0.0 ==> r.npv == cumulative[inp.years]
    ensures r.pi * inp.capex == r.npv + inp.capex
    ensures r.pi > 1.0 <==> r.npv > 0.0
    ensures r.payback.Some? ==>
              1 <= r.payback.value <= inp.years && cumulative[r.payback.value] > 0.0
              && forall j :: 0 <= j < r.payback.value ==> cumulative[j] <= 0.0
    ensures r.payback.None? ==> forall j :: 0 <= j <= inp.years ==> cumulative[j] <= 0.0
    ensures r.breakevenPrice * KwhPerYear(inp) == annualOpex + LeasePayment(inp) + AnnualLoanPayment(inp)
  {
    var npv := NetPresentValue(inp, cashFlows);
    RunningSumsArePrefixSums(cashFlows, inp.years);
    assert cashFlows[..inp.years + 1] == cashFlows;
    Report(npv, ProfitabilityIndex(npv, inp.capex), PaybackPeriod(cumulative), BreakevenPrice(inp, annualOpex))
  }

  /** Runs the projection and reduces it to the reported metrics. */
  method Evaluate(inp: Inputs) returns (cashFlows: seq<real>, cumulative: seq<real>, report: Report)
    requires Valid(inp)
    ensures |cashFlows| == inp.years + 1 && cumulative == RunningSums(cashFlows)
    ensures cashFlows[0] == -inp.capex
    ensures forall y {:trigger NetCashInYear(inp, y)} :: 1 <= y <= inp.years ==> cashFlows[y] == NetCashInYear(inp, y)
    ensures report == Metrics(inp, cashFlows, cumulative, OpexInYear(inp, inp.years))
  {
    var rows, annualRevenue, annualOpex;
    cashFlows, cumulative, rows, annualRevenue, annualOpex := Project(inp);
    report := Metrics(inp, cashFlows, cumulative, annualOpex);
  }
}
