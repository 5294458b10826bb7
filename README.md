# EV charging-station financial model — the calculation core

This project models the calculation block of a single-page financial model for an
electric-vehicle charging station in Lagos (`charging_station_model.py`, lines 43-90).
From the station's usage, costs, financing and projection settings, the block does four things:

- It derives the base annual figures: sessions per year, base revenue, the loan amount and its level annual
  instalment, yearly opex and the lease charge.
- It runs a year-by-year loop. Revenue grows and opex inflates from year 1 on. Energy costs a flat 30% of
  revenue. The loan instalment is paid only within the loan term. A lease charge of 15% of capex is paid
  every year when the station is leased, on top of the loan instalment.
- It keeps the list of cash flows, with `-capex` at index 0, and the running cumulative cash flow.
- It reduces these lists to the net present value, the profitability index, the payback year and the
  breakeven price per kWh.

Files:

- `finance.dfy`, module `Finance`: shared arithmetic. Compound growth and the plain and running totals are
  computed by the loop itself (lines 66-67 and 83); the annuity payment and the net present value are closed
  forms of the two library calls the script makes, `npf.pmt` (line 49) and `npf.npv` (line 86).
  - `Pow`: compound growth.
  - `AnnuityPayment`: the level annuity payment. `Balance` is the outstanding loan balance that proves it.
  - `Sum` and `RunningSums`: plain and running totals.
  - `Npv`: the net present value, `Σ cf[t] / (1+r)^t` with the first flow at t = 0, as `npf.npv` computes it.
- `station_model.dfy`, module `StationModel`:
  - `Inputs` is the immutable record of inputs. `Valid` gives the ranges the input controls allow.
  - The base figures are functions.
  - The per-year revenue, opex, energy cost, loan due, costs and net cash flow are specification functions.
  - `Project` is the projection loop, as a method whose loop invariants tie it to those functions.
  - `Metrics` holds the metric formulas and `Evaluate` runs the whole block.

Money and rates are `real`. Percentages stay in percent, as in the script (10.0 means 10%).

How the code computes its figures:

- There is a single cost model. Energy costs 30% of the year's revenue, and growth and inflation compound from
  year 1.
- A leased station pays the 15% lease charge and also the loan instalment: the instalment (lines 49 and 73)
  does not depend on the ownership choice, so a lease adds to the loan rather than replacing it.
- The breakeven price (line 90) divides the final year's opex, plus the lease charge, plus the loan instalment,
  by the kWh sold in a year. It does not divide the final year's total cost. Energy cost is left out. The loan
  instalment is always included, because the loan term is at least one year, even when the final projected
  year lies after the loan term. `BreakevenVersusFinalYear` states the exact difference.
- Payback "Beyond projection" is `None`.

## Model

| member | source | states |
|---|---|---|
| `Finance.AnnuityPayment` | charging_station_model.py:49 | The annual loan payment is non-negative for a non-negative loan. Paying it for the whole term leaves a zero balance: it amortises the loan, at a zero rate too, where it is the loan divided by the term. |
| `Finance.BalanceClosedForm` | charging_station_model.py:49 | After k payments, rate × balance = rate·P·(1+r)^k − payment·((1+r)^k − 1). This is the closed form behind the annuity formula. |
| `Finance.BalanceInterestFree` | charging_station_model.py:49 | At a zero rate, the balance after k payments is the principal less k payments. |
| `Finance.AnnuityRepays` | charging_station_model.py:49 | At a positive rate, the payment r·P·g/(g−1), with g = (1+r)^n, brings the balance to exactly zero after n years. |
| `Finance.RunningSumsStep` | charging_station_model.py:83 | Each running total after the first equals the previous total plus that year's cash flow. |
| `Finance.RunningSumsArePrefixSums` | charging_station_model.py:55-83 | Entry i of the running totals is the sum of cash flows 0..i. |
| `Finance.RunningSumsAppend` | charging_station_model.py:76-83 | Appending a cash flow appends the last running total plus that flow, and leaves the earlier totals unchanged. |
| `Finance.NpvAtZeroRate` | charging_station_model.py:86 | At a zero discount rate, the net present value is the plain sum of the cash flows. |
| `Finance.NpvMonotone` | charging_station_model.py:86 | A cash-flow list that is at least as large in every year has at least as large a net present value, at any rate above −100%. |
| `StationModel.SessionsPerYear` | charging_station_model.py:44 | Sessions per year lie between 3,650 and 73,000 for the allowed daily sessions. |
| `StationModel.KwhPerYear` | charging_station_model.py:45 | The energy sold per year is at least 18,250 kWh, so the breakeven divisor is never zero. |
| `StationModel.RevenuePerYear` | charging_station_model.py:45 | The base annual revenue is positive, at least 1,825,000. |
| `StationModel.LoanAmount` | charging_station_model.py:47 | The loan lies between 0 and the capital cost. |
| `StationModel.AnnualLoanPayment` | charging_station_model.py:49 | The instalment is non-negative and repays the loan amount over the loan term at the interest rate. |
| `StationModel.OpexYearly` | charging_station_model.py:50 | Yearly opex is at least 600,000. |
| `StationModel.LeasePayment` | charging_station_model.py:51 | The lease charge is positive exactly when the station is leased, and is then 15% of capex. Otherwise it is zero. |
| `Finance.RunningSums` | charging_station_model.py:55-83 | The running totals of a cash-flow list have the same length and start with its first flow; each later total is the previous one plus that flow (see `RunningSumsStep`). |
| `Finance.Npv` | charging_station_model.py:86 | Defines the net present value as `Σ cf[t] / (1+r)^t` with the first flow at t = 0, for any rate above −100%. |
| `StationModel.Valid` | charging_station_model.py:15-41 | Defines the ranges the input controls allow: 10-200 sessions a day, capex at least 1,000,000, monthly opex at least 50,000, price at least 100, 5-50 kWh a session, inflation, growth, interest and discount rates 0-20%, loan share 0-100%, term 1-10 years, projection 1-15 years. |
| `StationModel.RevenueInYear` | charging_station_model.py:61-66 | Defines year y's revenue as the base revenue times (1 + growth/100)^y, the value of `annual_revenue` after y passes of the loop. |
| `StationModel.OpexInYear` | charging_station_model.py:62-67 | Defines year y's opex as the yearly opex times (1 + inflation/100)^y, the value of `annual_opex` after y passes of the loop. |
| `StationModel.EnergyCost` | charging_station_model.py:70 | Defines the year's energy cost as 30% of that year's revenue. |
| `StationModel.LoanDue` | charging_station_model.py:73 | The instalment due in a year is non-negative, is positive only within the loan term, and within the term is the payment that repays the loan. The ownership choice does not affect it. |
| `StationModel.CostsInYear` | charging_station_model.py:73 | Defines a year's costs as its opex, plus energy, plus the instalment if due, plus the lease charge. |
| `StationModel.NetCashInYear` | charging_station_model.py:70-75 | A year's net cash flow is 70% of its revenue, less opex, less the lease charge, less the loan instalment if one is due. |
| `StationModel.RevenueCompounds` | charging_station_model.py:61-66 | Each year's revenue is the previous year's times (1 + growth/100), starting from the base revenue. |
| `StationModel.OpexCompounds` | charging_station_model.py:62-67 | Each year's opex is the previous year's times (1 + inflation/100), starting from the yearly opex. |
| `StationModel.FirstYearGrown` | charging_station_model.py:61-67 | Growth and inflation are already applied in year 1. |
| `StationModel.RevenueNondecreasing` | charging_station_model.py:66 | Revenue never falls from one year to a later one, and never drops below the base revenue. |
| `StationModel.OpexNondecreasing` | charging_station_model.py:67 | Opex never falls from one year to a later one, and never drops below the base yearly opex. |
| `StationModel.LoanDropOff` | charging_station_model.py:73 | After the loan term, a year's costs other than opex and energy are exactly one instalment lower than in any year of the term. Within the term they are the lease charge plus the instalment. |
| `StationModel.FlatFigures` | charging_station_model.py:64-67 | Without growth and inflation, every year's revenue and opex equal the base figures. |
| `StationModel.FlatCashFlows` | charging_station_model.py:64-75 | Without growth and inflation, two years on the same side of the loan term's end have equal net cash flow. A year after the term earns exactly one instalment more than a year within it. |
| `StationModel.Project` | charging_station_model.py:54-83 | Both lists have years+1 entries and start at −capex. Entry y is year y's net cash flow. Each cumulative entry is the previous one plus that year's cash flow, so the cumulative list is the running totals. The chart rows hold each year's revenue, costs and net cash flow. The final revenue and opex are those of the last year. |
| `StationModel.NetPresentValue` | charging_station_model.py:86 | This is the discounted sum of the cash flows. With a zero discount rate it is their plain sum. |
| `StationModel.ProfitabilityIndex` | charging_station_model.py:88 | PI × capex = NPV + capex. PI > 1 exactly when NPV > 0, and PI = 1 exactly when NPV = 0. |
| `StationModel.FirstPositiveFrom` | charging_station_model.py:89 | This finds the first index at or after i with a positive entry, with every entry before it non-positive. It returns None only when no such entry exists. |
| `StationModel.PaybackPeriod` | charging_station_model.py:89 | The payback index is the first index whose cumulative value is positive. It is None ("Beyond projection") exactly when no cumulative value is positive. |
| `StationModel.PaybackExample` | charging_station_model.py:89 | For cash flows −100, 60, 60 the payback is year 2. |
| `StationModel.BreakevenPrice` | charging_station_model.py:90 | Price × kWh per year = final-year opex + lease charge + loan instalment. The instalment is always included, and energy is not. The price is positive unless all three charges are zero. |
| `StationModel.BreakevenVersusFinalYear` | charging_station_model.py:90 | The breakeven revenue equals the final year's costs less energy. When the final year lies after the loan term, it adds one instalment that is not due that year. |
| `StationModel.Metrics` | charging_station_model.py:86-90 | NPV is the discounted sum. At a zero rate it equals the final cumulative value. PI × capex = NPV + capex, and PI > 1 iff NPV > 0. A payback year lies in 1..years, is the first year whose cumulative value is positive, and is None only if no cumulative value is positive. The breakeven identity holds. |
| `StationModel.Evaluate` | charging_station_model.py:43-90 | The cash flows and cumulative list are those of the projection. The report is the metrics of that projection, with the last year's opex. |

## Left out

- The input controls and all output (lines 1-41 and 92-124): titles, sidebar widgets, metric formatting, the
  cash-flow table and the chart. The inputs arrive as the `Inputs` record, with the control ranges as `Valid`.
  The chart rows are returned by `Project` but not rendered.
- The internal rate of return (`npf.irr`, line 87): a numerical root finder in a foreign library. It is neither
  computed nor reported.
- The library internals of `npf.pmt` and `npf.npv` (lines 49, 86): they are replaced by their closed forms
  (annuity payment with payments at year end and no future value; `Σ cf[t]/(1+r)^t` from t = 0).
- Floating-point rounding: all money and rates are exact reals, so the breakeven identity holds exactly, not
  within a tolerance.
- Integer-ness of inputs: the sliders for sessions, kWh, loan share, term and years give whole numbers. Sessions,
  kWh, term and years are `int`, but capex, opex, price and loan share are `real` and may take values the
  controls would not offer.
- Inputs with no arithmetic effect: location, charging duration, solar share (read but never used), the equity
  amount (computed but never used). The charger type only picks the price field's default value, so the price
  itself is the input.
